/** The sliding-window rate limiter: one bucket of admitted timestamps per tenant.

    Clock readings are real numbers of seconds.  Each operation takes the reading it
    would obtain from the monotonic clock as a parameter. */
module RateLimit {
  import opened Common

  datatype PolicyFields = Policy(maxRequests: nat, windowSeconds: nat)

  type RatePolicy = p: PolicyFields | p.maxRequests >= 1 && p.windowSeconds >= 1 witness Policy(1, 1)

  datatype Verdict = Verdict(allowed: bool, remaining: nat, retryAfterSeconds: nat)

  /** What one call leaves in the deque, and what it answers. */
  datatype Outcome = Outcome(timestamps: seq<real>, verdict: Verdict)

  // ---------------------------------------------------------------- one bucket, as a function

  /** Drops expired timestamps from the head only: an unexpired head shields whatever is behind it. */
  function Evict(ts: seq<real>, windowStart: real): seq<real> {
    if ts != [] && ts[0] < windowStart then Evict(ts[1..], windowStart) else ts
  }

  /** `dropped` is how many timestamps eviction removes: all of them expired, and the next one not. */
  lemma {:induction false} EvictDropsExpired(ts: seq<real>, windowStart: real) returns (dropped: nat)
    ensures dropped <= |ts| && Evict(ts, windowStart) == ts[dropped..]
    ensures forall i :: 0 <= i < dropped ==> ts[i] < windowStart
    ensures dropped < |ts| ==> windowStart <= ts[dropped]
  {
    if ts != [] && ts[0] < windowStart {
      var rest := EvictDropsExpired(ts[1..], windowStart);
      dropped := rest + 1;
      assert ts[1..][rest..] == ts[dropped..];
      assert forall i :: 0 < i < dropped ==> ts[i] == ts[1..][i - 1];
    } else {
      dropped := 0;
    }
  }

  /** Conversion to an integer by truncation toward zero. */
  function Truncate(x: real): int {
    if x >= 0.0 then x.Floor else -((-x).Floor)
  }

  function RetryAfter(oldest: real, windowStart: real): (seconds: nat)
    ensures seconds >= 1
  {
    var s := Truncate(oldest - windowStart) + 1;
    if s > 1 then s else 1
  }

  function WindowStart(policy: RatePolicy, now: real): real {
    now - policy.windowSeconds as real
  }

  function Decide(policy: RatePolicy, ts: seq<real>, now: real): Outcome {
    var live := Evict(ts, WindowStart(policy, now));
    if |live| >= policy.maxRequests then
      Outcome(live, Verdict(false, 0, RetryAfter(live[0], WindowStart(policy, now))))
    else
      Outcome(live + [now], Verdict(true, policy.maxRequests - |live| - 1, 0))
  }

  // ---------------------------------------------------------------- a whole run of one bucket

  /** The deque after calls whose clock readings were committed in this order. */
  function After(policy: RatePolicy, readings: History<real>): seq<real> {
    match readings
    case Start => []
    case Then(past, now) => Decide(policy, After(policy, past), now).timestamps
  }

  /** The answer to a call that commits `now` after the given history. */
  function Answer(policy: RatePolicy, past: History<real>, now: real): Verdict {
    Decide(policy, After(policy, past), now).verdict
  }

  /** Every timestamp ever admitted, in commit order; nothing is evicted from this log. */
  function Log(policy: RatePolicy, readings: History<real>): seq<real> {
    match readings
    case Start => []
    case Then(past, now) =>
      if Answer(policy, past, now).allowed then Log(policy, past) + [now] else Log(policy, past)
  }

  /** How many entries of a log lie in the closed interval from lo to hi. */
  function Count(log: seq<real>, lo: real, hi: real): nat {
    if log == [] then 0
    else Count(log[..|log| - 1], lo, hi) + (if lo <= log[|log| - 1] <= hi then 1 else 0)
  }

  // ---------------------------------------------------------------- the bucket object

  class TenantBucket {
    const policy: RatePolicy
    var timestamps: seq<real>

    constructor (policy: RatePolicy)
      ensures this.policy == policy && timestamps == After(policy, Start)
    {
      this.policy := policy;
      timestamps := [];
    }

    /** `now` was read before the lock was taken, so it may lag behind readings committed earlier. */
    method CheckAndRecord(now: real) returns (verdict: Verdict)
      modifies this
      ensures Outcome(timestamps, verdict) == Decide(policy, old(timestamps), now)
    {
      var windowStart := now - policy.windowSeconds as real;
      while timestamps != [] && timestamps[0] < windowStart
        invariant Evict(timestamps, windowStart) == Evict(old(timestamps), windowStart)
        decreases |timestamps|
      {
        timestamps := timestamps[1..];
      }
      var count := |timestamps|;
      if count >= policy.maxRequests {
        var oldest := timestamps[0];
        var seconds := Truncate(oldest - windowStart) + 1;
        return Verdict(false, 0, if seconds > 1 then seconds else 1);
      }
      timestamps := timestamps + [now];
      return Verdict(true, policy.maxRequests - count - 1, 0);
    }
  }

  // ---------------------------------------------------------------- all tenants, as a function

  datatype Limits = Limits(byDefault: RatePolicy, perTenant: map<string, RatePolicy>)

  function PolicyFor(limits: Limits, tenant: string): RatePolicy {
    if tenant in limits.perTenant then limits.perTenant[tenant] else limits.byDefault
  }

  datatype Call = Call(tenant: string, now: real)

  /** The deques of all buckets created so far. */
  type Deques = map<string, seq<real>>

  function DequeOf(deques: Deques, tenant: string): seq<real> {
    if tenant in deques then deques[tenant] else []
  }

  function DequesAfter(limits: Limits, calls: History<Call>): Deques {
    match calls
    case Start => map[]
    case Then(past, call) =>
      var deques := DequesAfter(limits, past);
      deques[call.tenant :=
        Decide(PolicyFor(limits, call.tenant), DequeOf(deques, call.tenant), call.now).timestamps]
  }

  function AnswerCall(limits: Limits, past: History<Call>, call: Call): Verdict {
    Decide(PolicyFor(limits, call.tenant), DequeOf(DequesAfter(limits, past), call.tenant), call.now).verdict
  }

  // ---------------------------------------------------------------- the provider object

  class RateLimitProvider {
    const limits: Limits
    var buckets: map<string, TenantBucket>

    ghost predicate Valid()
      reads this, buckets.Values
    {
      && (forall t :: t in buckets ==> buckets[t].policy == PolicyFor(limits, t))
      && (forall t, u :: t in buckets && u in buckets && t != u ==> buckets[t] != buckets[u])
    }

    /** The deque of a tenant; a tenant never seen has an empty one. */
    ghost function Held(tenant: string): seq<real>
      reads this, buckets.Values
    {
      if tenant in buckets then buckets[tenant].timestamps else []
    }

    constructor (limits: Limits)
      ensures Valid() && this.limits == limits && buckets == map[]
    {
      this.limits := limits;
      buckets := map[];
    }

    method GetOrCreateBucket(tenant: string) returns (bucket: TenantBucket)
      requires Valid()
      modifies this
      ensures Valid() && buckets == old(buckets)[tenant := bucket]
      ensures if tenant in old(buckets) then bucket == old(buckets[tenant]) else fresh(bucket)
      ensures bucket.timestamps == old(Held(tenant))
      ensures tenant in limits.perTenant ==> bucket.policy == limits.perTenant[tenant]
      ensures tenant !in limits.perTenant ==> bucket.policy == limits.byDefault
    {
      if tenant !in buckets {
        var policy := if tenant in limits.perTenant then limits.perTenant[tenant] else limits.byDefault;
        var created := new TenantBucket(policy);
        buckets := buckets[tenant := created];
      }
      bucket := buckets[tenant];
    }

    method Check(tenant: string, now: real) returns (verdict: Verdict)
      requires Valid()
      modifies this, buckets.Values
      ensures Valid() && buckets.Keys == old(buckets.Keys) + {tenant}
      ensures forall t :: t in old(buckets) ==> buckets[t] == old(buckets[t])
      ensures tenant !in old(buckets) ==> fresh(buckets[tenant])
      ensures tenant in limits.perTenant ==>
        Outcome(Held(tenant), verdict) == Decide(limits.perTenant[tenant], old(Held(tenant)), now)
      ensures tenant !in limits.perTenant ==>
        Outcome(Held(tenant), verdict) == Decide(limits.byDefault, old(Held(tenant)), now)
      ensures forall t :: t != tenant ==> Held(t) == old(Held(t))
    {
      var bucket := GetOrCreateBucket(tenant);
      assert forall t :: t in buckets && t != tenant ==> buckets[t] == old(buckets)[t] != bucket;
      verdict := bucket.CheckAndRecord(now);
    }
  }
}
