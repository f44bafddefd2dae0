/** When a deletion takes effect for every later request, whatever is scheduled. */
module MemorySettled {
  import opened Common
  import opened MemoryModel
  import opened TtlCache
  import opened MemoryProtocol
  import opened MemoryGuarantees
  import opened MemoryStaleness

  ghost predicate Holds(r: SearchResult, t: Triple) {
    exists m :: m in r.items && IdOf(m) == t
  }

  /** The event answers a search with the memory, or a get for the memory with a memory. */
  ghost predicate HandsOut(cfg: Config, w: World, e: Event, t: Triple) {
    || (ReplyTo(cfg, w, e).Some? && Holds(ReplyTo(cfg, w, e).value.1, t))
    || (e.GetFetch? && e.gid in w.gets && w.gets[e.gid] == t && FetchFrom(ActiveAdapter(w), t).Present?)
  }

  /** Some configured adapter can hand out memories. */
  ghost predicate CanServe(cfg: Config) {
    exists name :: name in cfg.adapters && !cfg.adapters[name].Null?
  }

  /** No live cache entry has the memory. */
  ghost predicate NothingCached(w: World, t: Triple) {
    forall key :: key in w.cache && !Expired(w.cache[key], w.clock) ==> !Holds(w.cache[key].value, t)
  }

  /** No search about to write the cache has the memory, and no get past its filter check wants it. */
  ghost predicate NothingInFlight(w: World, t: Triple) {
    && (forall sid :: sid in w.searches && w.searches[sid].Filtered? ==> !Holds(w.searches[sid].result, t))
    && (forall gid :: gid in w.gets ==> w.gets[gid] != t)
  }

  /** Nothing that could still be handed out has the memory. */
  ghost predicate Settled(w: World, t: Triple) {
    NothingCached(w, t) && NothingInFlight(w, t)
  }

  /** In no continuation of h is the memory ever handed out. */
  ghost predicate NeverHandedOutAfter(cfg: Config, h: History<Event>, t: Triple) {
    forall g, e :: Within(h, g) && Schedule(cfg, Then(g, e)) ==> !HandsOut(cfg, Now(cfg, g), e, t)
  }

  // ---------------------------------------------------------------- adapters keep their kind

  predicate SameKind(a: Adapter, b: Adapter) {
    a.Stub? == b.Stub? && a.Null? == b.Null?
  }

  /** Adapters change what they hold or answer, not what they are. */
  ghost predicate KindsAsConfigured(cfg: Config, w: World) {
    && w.adapters.Keys == cfg.adapters.Keys
    && forall name :: name in cfg.adapters ==> SameKind(w.adapters[name], cfg.adapters[name])
  }

  lemma StepKeepsKind(cfg: Config, w: World, e: Event, name: string)
    requires Enabled(cfg, w, e)
    ensures name in Apply(cfg, w, e).adapters <==> name in w.adapters
    ensures name in w.adapters ==> SameKind(Apply(cfg, w, e).adapters[name], w.adapters[name])
  {
    match e
    case Upsert(_) =>
    case Delete(_) =>
    case RemoteChange(_, _, _) =>
    case _ => assert Apply(cfg, w, e).adapters == w.adapters;
  }

  lemma StepKeepsKinds(cfg: Config, w: World, e: Event)
    requires Enabled(cfg, w, e) && KindsAsConfigured(cfg, w)
    ensures KindsAsConfigured(cfg, Apply(cfg, w, e))
  {
    forall name
      ensures name in Apply(cfg, w, e).adapters <==> name in w.adapters
      ensures name in w.adapters ==> SameKind(Apply(cfg, w, e).adapters[name], w.adapters[name])
    {
      StepKeepsKind(cfg, w, e, name);
    }
  }

  lemma {:induction false} RunsKeepKinds(cfg: Config, h: History<Event>)
    ensures KindsAsConfigured(cfg, Now(cfg, h))
  {
    match h
    case Start =>
    case Then(past, e) =>
      RunsKeepKinds(cfg, past);
      if Enabled(cfg, Now(cfg, past), e) {
        StepKeepsKinds(cfg, Now(cfg, past), e);
      }
  }

  /** Without an adapter that can serve, nothing is ever handed out. */
  lemma NobodyServes(cfg: Config, h: History<Event>, e: Event, t: Triple)
    requires Schedule(cfg, Then(h, e)) && !CanServe(cfg)
    ensures !HandsOut(cfg, Now(cfg, h), e, t)
  {
    RunsKeepKinds(cfg, h);
    assert ActiveAdapter(Now(cfg, h)) == Null;
    if ReplyTo(cfg, Now(cfg, h), e).Some? {
      var o := EveryReplyHasAnOrigin(cfg, h, e);
      RunsKeepKinds(cfg, o.queried);
      assert ActiveAdapter(Now(cfg, o.queried)) == Null;
      assert ReplyTo(cfg, Now(cfg, h), e).value.1.items == [];
    }
  }

  // ---------------------------------------------------------------- settled stays settled

  /** The tombstone is in the filter and the table would give it back. */
  predicate Lasting(w: World, t: Triple) {
    t in w.tombstones && t.entityId in w.durable && w.durable[t.entityId] == t
  }

  lemma StepKeepsLasting(cfg: Config, w: World, e: Event, t: Triple)
    requires Enabled(cfg, w, e) && Lasting(w, t)
    ensures Lasting(Apply(cfg, w, e), t)
  {
  }

  lemma StepKeepsSearchesSettled(cfg: Config, w: World, e: Event, t: Triple, sid: nat)
    requires Enabled(cfg, w, e) && Lasting(w, t) && Settled(w, t)
    requires sid in Apply(cfg, w, e).searches && Apply(cfg, w, e).searches[sid].Filtered?
    ensures !Holds(Apply(cfg, w, e).searches[sid].result, t)
  {
    if e == Filter(sid) {
      forall m | m in Apply(cfg, w, e).searches[sid].result.items
        ensures IdOf(m) != t
      {
        FilterKeepsTheOthers(w.searches[sid].result.items, w.tombstones, m);
      }
    } else if e != Query(sid) {
      SearchStep(cfg, w, e, sid);
    }
  }

  lemma StepKeepsSettled(cfg: Config, w: World, e: Event, t: Triple)
    requires Enabled(cfg, w, e) && Lasting(w, t) && Settled(w, t)
    ensures Settled(Apply(cfg, w, e), t)
  {
    var v := Apply(cfg, w, e);
    forall key | key in v.cache && !Expired(v.cache[key], v.clock)
      ensures !Holds(v.cache[key].value, t)
    {
      if !Writes(cfg, w, e, key) {
        CacheStep(cfg, w, e, key);
        StepAdvancesClock(cfg, w, e);
      }
    }
    forall sid | sid in v.searches && v.searches[sid].Filtered?
      ensures !Holds(v.searches[sid].result, t)
    {
      StepKeepsSearchesSettled(cfg, w, e, t, sid);
    }
    forall gid | gid in v.gets
      ensures v.gets[gid] != t
    {
      GetStep(cfg, w, e, gid);
    }
  }

  lemma {:induction false} SettledStaysSettled(cfg: Config, h: History<Event>, g: History<Event>, t: Triple)
    requires Schedule(cfg, g) && Within(h, g) && Lasting(Now(cfg, h), t) && Settled(Now(cfg, h), t)
    ensures Lasting(Now(cfg, g), t) && Settled(Now(cfg, g), t)
  {
    if h == g {
    } else {
      SettledStaysSettled(cfg, h, g.past, t);
      StepKeepsLasting(cfg, Now(cfg, g.past), g.last, t);
      StepKeepsSettled(cfg, Now(cfg, g.past), g.last, t);
    }
  }

  // ---------------------------------------------------------------- unsettled can be seen

  lemma {:induction false} SomeFreshNumber(s: set<nat>) returns (n: nat)
    ensures forall k :: k in s ==> k < n
    decreases s
  {
    n := 0;
    if k :| k in s {
      var m := SomeFreshNumber(s - {k});
      n := if k < m then m else k + 1;
      assert forall j :: j in s ==> j == k || j in s - {k};
    }
  }

  lemma CachedCanBeSeen(cfg: Config, h: History<Event>, t: Triple, key: string) returns (e: Event)
    requires Schedule(cfg, h) && key in Now(cfg, h).cache
    requires !Expired(Now(cfg, h).cache[key], Now(cfg, h).clock) && Holds(Now(cfg, h).cache[key].value, t)
    ensures Schedule(cfg, Then(h, e)) && HandsOut(cfg, Now(cfg, h), e, t)
  {
    EverythingHasAnOrigin(cfg, h);
    var o :| CachedBy(cfg, o, key, Now(cfg, h).cache[key], h);
    var sid := SomeFreshNumber(Now(cfg, h).searches.Keys);
    e := Event.Lookup(sid, o.request);
  }

  function Revived(t: Triple): Memory {
    Memory(t.entityId, t.tenantId, t.applicationId, "", map[], Active)
  }

  /** A stub that gets the memory back holds it, and a remote service may give it at any time. */
  lemma SomeStepRevives(cfg: Config, w: World, t: Triple) returns (e: Event)
    requires w.active in w.adapters && !w.adapters[w.active].Null?
    ensures Enabled(cfg, w, e) && Apply(cfg, w, e).gets == w.gets
    ensures FetchFrom(ActiveAdapter(Apply(cfg, w, e)), t).Present?
  {
    var a := w.adapters[w.active];
    if a.Stub? {
      e := Upsert(Revived(t));
      UpsertReadsBack(a.shelf, Revived(t), t);
      assert ActiveAdapter(Apply(cfg, w, e)) == Stub(UpsertInto(a.shelf, Revived(t)));
    } else {
      e := RemoteChange(w.active, a.answer, (wanted: Triple) => Present(Revived(wanted)));
      assert ActiveAdapter(Apply(cfg, w, e)) == Remote(e.answer, e.fetch);
    }
  }

  /** A get past its check can still hand out the memory. */
  lemma GetCanBeSeen(cfg: Config, h: History<Event>, t: Triple, gid: nat) returns (g: History<Event>, e: Event)
    requires Schedule(cfg, h) && gid in Now(cfg, h).gets && Now(cfg, h).gets[gid] == t && CanServe(cfg)
    ensures Within(h, g) && Schedule(cfg, Then(g, e)) && HandsOut(cfg, Now(cfg, g), e, t)
  {
    RunsKeepKinds(cfg, h);
    var name :| name in cfg.adapters && !cfg.adapters[name].Null?;
    var w, flagged := Now(cfg, h), Then(h, SetFlag(name));
    var v := w.(active := name);
    OneMore(cfg, h, SetFlag(name), v);
    var step := SomeStepRevives(cfg, v, t);
    OneMore(cfg, flagged, step, Apply(cfg, v, step));
    g, e := Then(flagged, step), GetFetch(gid);
    assert Within(h, flagged);
  }

  lemma UnsettledCanBeSeen(cfg: Config, h: History<Event>, t: Triple)
    returns (g: History<Event>, e: Event)
    requires Schedule(cfg, h) && !Settled(Now(cfg, h), t) && CanServe(cfg)
    ensures Within(h, g) && Schedule(cfg, Then(g, e)) && HandsOut(cfg, Now(cfg, g), e, t)
  {
    var w := Now(cfg, h);
    if key :| key in w.cache && !Expired(w.cache[key], w.clock) && Holds(w.cache[key].value, t) {
      g := h;
      e := CachedCanBeSeen(cfg, h, t, key);
    } else if sid :| sid in w.searches && w.searches[sid].Filtered? && Holds(w.searches[sid].result, t) {
      g, e := h, Write(sid);
    } else {
      var gid :| gid in w.gets && w.gets[gid] == t;
      g, e := GetCanBeSeen(cfg, h, t, gid);
    }
  }

  /** A tombstone that a restart loses lets a later get through. */
  lemma LostTombstoneCanBeSeen(cfg: Config, h: History<Event>, t: Triple) returns (g: History<Event>, e: Event)
    requires Schedule(cfg, h) && CanServe(cfg)
    requires t in Now(cfg, h).tombstones && FirstRecorded(h, t.entityId) != Some(t)
    ensures Within(h, g) && Schedule(cfg, Then(g, e)) && HandsOut(cfg, Now(cfg, g), e, t)
  {
    TombstoneSurvivesRestartIff(cfg, h, t);
    var restarted := Then(h, Restart);
    var w := Now(cfg, restarted);
    OneMore(cfg, restarted, GetCheck(0, t), w.(gets := w.gets[0 := t]));
    assert Within(h, restarted) && Within(h, Then(restarted, GetCheck(0, t)));
    g, e := GetCanBeSeen(cfg, Then(restarted, GetCheck(0, t)), t, 0);
    WithinTrans(h, Then(restarted, GetCheck(0, t)), g);
  }

  lemma SettledTakesEffect(cfg: Config, h: History<Event>, t: Triple)
    requires Schedule(cfg, h) && Lasting(Now(cfg, h), t) && Settled(Now(cfg, h), t)
    ensures NeverHandedOutAfter(cfg, h, t)
  {
    forall g, e | Within(h, g) && Schedule(cfg, Then(g, e))
      ensures !HandsOut(cfg, Now(cfg, g), e, t)
    {
      SettledStaysSettled(cfg, h, g, t);
    }
  }

  /** A deletion takes effect for all later requests, in every continuation, if and only if the memory is
      settled and its tombstone survives restarts, or no adapter could hand out anything anyway. */
  lemma DeletionTakesEffectIff(cfg: Config, h: History<Event>, t: Triple)
    requires Schedule(cfg, h) && t in Now(cfg, h).tombstones
    ensures NeverHandedOutAfter(cfg, h, t) <==>
      !CanServe(cfg) || (Settled(Now(cfg, h), t) && FirstRecorded(h, t.entityId) == Some(t))
  {
    if !CanServe(cfg) {
      forall g, e | Within(h, g) && Schedule(cfg, Then(g, e))
        ensures !HandsOut(cfg, Now(cfg, g), e, t)
      {
        NobodyServes(cfg, g, e, t);
      }
    } else if !Settled(Now(cfg, h), t) {
      var g, e := UnsettledCanBeSeen(cfg, h, t);
    } else if FirstRecorded(h, t.entityId) != Some(t) {
      var g, e := LostTombstoneCanBeSeen(cfg, h, t);
    } else {
      TableHoldsFirstRecorded(cfg, h, t.entityId);
      SettledTakesEffect(cfg, h, t);
    }
  }

  // ---------------------------------------------------------------- at the end of a delete route

  /** A route past its addition to the filter has its tombstone there. */
  ghost predicate RoutesAreFiltered(w: World) {
    forall rid :: rid in w.routes && InMidDelete(w.routes[rid]) ==> w.routes[rid].t in w.tombstones
  }

  lemma StepKeepsRoutesFiltered(cfg: Config, w: World, e: Event)
    requires Enabled(cfg, w, e) && RoutesAreFiltered(w)
    ensures RoutesAreFiltered(Apply(cfg, w, e))
  {
  }

  lemma {:induction false} RunsKeepRoutesFiltered(cfg: Config, h: History<Event>)
    requires Schedule(cfg, h)
    ensures RoutesAreFiltered(Now(cfg, h))
  {
    match h
    case Start =>
    case Then(past, e) =>
      RunsKeepRoutesFiltered(cfg, past);
      StepKeepsRoutesFiltered(cfg, Now(cfg, past), e);
  }

  /** Every cached item sits under a key of its own tenant and application. */
  lemma CachedUnderOwnPrefix(cfg: Config, h: History<Event>, key: string, m: Memory)
    requires Schedule(cfg, h) && HonestRun(cfg, h)
    requires key in Now(cfg, h).cache && m in Now(cfg, h).cache[key].value.items
    ensures InvalidationPrefix(m.tenantId, m.applicationId) <= key
  {
    EverythingHasAnOrigin(cfg, h);
    var o :| CachedBy(cfg, o, key, Now(cfg, h).cache[key], h);
    var answer :| QueriedAt(cfg, o, answer, o.filtered)
      && Now(cfg, h).cache[key].value == Purified(answer, Now(cfg, o.filtered).tombstones);
    FilterKeepsTheOthers(answer.items, Now(cfg, o.filtered).tombstones, m);
    OriginIsWithin(cfg, o, answer, h, key);
    HonestWithin(cfg, o.queried, h);
    RunKeepsAdaptersHonest(cfg, o.queried);
    AnswersAreStamped(Now(cfg, o.queried), o.request);
  }

  lemma InvalidationEmptiesTheCache(cfg: Config, past: History<Event>, rid: nat, t: Triple)
    requires Schedule(cfg, Then(past, InvalidateCache(rid))) && HonestRun(cfg, past)
    requires Now(cfg, past).routes[rid] == Audited(t)
    ensures NothingCached(Now(cfg, Then(past, InvalidateCache(rid))), t)
  {
    var w, v := Now(cfg, past), Now(cfg, Then(past, InvalidateCache(rid)));
    forall key | key in v.cache
      ensures !Holds(v.cache[key].value, t)
    {
      CacheStep(cfg, w, InvalidateCache(rid), key);
      if m :| m in v.cache[key].value.items && IdOf(m) == t {
        CachedUnderOwnPrefix(cfg, past, key, m);
        assert false;
      }
    }
  }

  lemma RouteLeavesTombstone(cfg: Config, past: History<Event>, e: Event, rid: nat, t: Triple)
    requires Schedule(cfg, Then(past, e)) && rid in Now(cfg, past).routes
    requires InMidDelete(Now(cfg, past).routes[rid]) && Now(cfg, past).routes[rid].t == t
    requires e == InvalidateCache(rid) || e == Audit(rid, false)
    ensures t in Now(cfg, Then(past, e)).tombstones && FirstRecorded(Then(past, e), t.entityId)
      == FirstRecorded(past, t.entityId)
  {
    RunsKeepRoutesFiltered(cfg, past);
  }

  /** When a delete route runs to its end, the deletion takes effect for all later requests if and only if
      no search is between its filter pass and its cache write, and no get between its check and its
      read, with the memory, and nobody else recorded its id first. */
  lemma CompletedRouteTakesEffectIff(cfg: Config, past: History<Event>, rid: nat, t: Triple)
    requires Schedule(cfg, Then(past, InvalidateCache(rid))) && HonestRun(cfg, past)
    requires Now(cfg, past).routes[rid] == Audited(t)
    ensures NeverHandedOutAfter(cfg, Then(past, InvalidateCache(rid)), t) <==>
      !CanServe(cfg) || (NothingInFlight(Now(cfg, past), t) && FirstRecorded(past, t.entityId) == Some(t))
  {
    var h := Then(past, InvalidateCache(rid));
    InvalidationEmptiesTheCache(cfg, past, rid, t);
    RouteLeavesTombstone(cfg, past, InvalidateCache(rid), rid, t);
    DeletionTakesEffectIff(cfg, h, t);
    SameInFlight(Now(cfg, past), Now(cfg, h), t);
  }

  lemma SameInFlight(w: World, v: World, t: Triple)
    requires v.searches == w.searches && v.gets == w.gets
    ensures NothingInFlight(v, t) <==> NothingInFlight(w, t)
  {
  }

  /** When the audit write of a delete route fails, the cache is left as it was: the deletion takes effect
      if and only if, in addition, no live cache entry has the memory. */
  lemma FailedAuditTakesEffectIff(cfg: Config, past: History<Event>, rid: nat, t: Triple)
    requires Schedule(cfg, Then(past, Audit(rid, false))) && Now(cfg, past).routes[rid].t == t
    ensures NeverHandedOutAfter(cfg, Then(past, Audit(rid, false)), t) <==>
      || !CanServe(cfg)
      || (NothingInFlight(Now(cfg, past), t) && NothingCached(Now(cfg, past), t)
          && FirstRecorded(past, t.entityId) == Some(t))
  {
    var h := Then(past, Audit(rid, false));
    RouteLeavesTombstone(cfg, past, Audit(rid, false), rid, t);
    DeletionTakesEffectIff(cfg, h, t);
    SameInFlight(Now(cfg, past), Now(cfg, h), t);
  }
}
