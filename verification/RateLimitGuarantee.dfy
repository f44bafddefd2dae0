/** What the rate limiter guarantees over whole runs. */
module RateLimitGuarantee {
  import opened Common
  import opened RateLimit

  function Window(policy: RatePolicy): real {
    policy.windowSeconds as real
  }

  /** Every committed reading lags behind those committed before it by at most `lag`. */
  ghost predicate BoundedLag(readings: History<real>, lag: real) {
    match readings
    case Start => true
    case Then(past, now) => BoundedLag(past, lag) && forall x :: x in Items(past) ==> x - lag <= now
  }

  ghost predicate NonDecreasing(s: seq<real>) {
    forall i, j :: 0 <= i < j < |s| ==> s[i] <= s[j]
  }

  // ---------------------------------------------------------------- counting

  lemma {:induction false} CountConcat(a: seq<real>, b: seq<real>, lo: real, hi: real)
    ensures Count(a + b, lo, hi) == Count(a, lo, hi) + Count(b, lo, hi)
    decreases |b|
  {
    if b == [] {
      assert a + b == a;
    } else {
      var m := |b| - 1;
      assert (a + b)[..|a + b| - 1] == a + b[..m];
      CountConcat(a, b[..m], lo, hi);
    }
  }

  /** The count is the number of places whose entry lies in the interval. */
  lemma {:induction false} CountIsCardinality(s: seq<real>, lo: real, hi: real)
    ensures Count(s, lo, hi) == |set i | 0 <= i < |s| && lo <= s[i] && s[i] <= hi|
  {
    if s == [] {
    } else {
      var m := |s| - 1;
      CountIsCardinality(s[..m], lo, hi);
      var before := set i | 0 <= i < m && lo <= s[..m][i] && s[..m][i] <= hi;
      var all := set i | 0 <= i < |s| && lo <= s[i] && s[i] <= hi;
      assert all == before + (if lo <= s[m] <= hi then {m} else {});
    }
  }

  lemma {:induction false} CountAtMostLength(s: seq<real>, lo: real, hi: real)
    ensures Count(s, lo, hi) <= |s|
  {
    if s == [] {
    } else {
      CountAtMostLength(s[..|s| - 1], lo, hi);
    }
  }

  lemma {:induction false} CountOutside(s: seq<real>, lo: real, hi: real)
    requires forall i :: 0 <= i < |s| ==> s[i] < lo || hi < s[i]
    ensures Count(s, lo, hi) == 0
  {
    if s == [] {
    } else {
      CountOutside(s[..|s| - 1], lo, hi);
    }
  }

  lemma {:induction false} CountInside(s: seq<real>, lo: real, hi: real)
    requires forall i :: 0 <= i < |s| ==> lo <= s[i] <= hi
    ensures Count(s, lo, hi) == |s|
  {
    if s == [] {
    } else {
      CountInside(s[..|s| - 1], lo, hi);
    }
  }

  // ---------------------------------------------------------------- the deque against the log

  /** The deque is the log without its first k entries, and each of those had expired for some
      reading already committed.  No order among the readings is assumed. */
  lemma {:induction false} DequeIsLogSuffix(policy: RatePolicy, readings: History<real>)
    returns (k: nat, newest: real)
    ensures k <= |Log(policy, readings)| && After(policy, readings) == Log(policy, readings)[k..]
    ensures |After(policy, readings)| <= policy.maxRequests
    ensures k > 0 ==> newest in Items(readings)
    ensures forall i :: 0 <= i < k ==> Log(policy, readings)[i] < newest - Window(policy)
  {
    match readings
    case Start => k, newest := 0, 0.0;
    case Then(past, now) =>
      var k0, newest0 := DequeIsLogSuffix(policy, past);
      var dropped := EvictDropsExpired(After(policy, past), WindowStart(policy, now));
      k := k0 + dropped;
      newest := if k0 == 0 || now > newest0 then now else newest0;
      DropMore(Log(policy, past), k0, dropped, newest0 - Window(policy), now - Window(policy), now);
  }

  lemma DropMore(log: seq<real>, k: nat, dropped: nat, a: real, b: real, next: real)
    requires k <= |log| && dropped <= |log[k..]|
    requires forall i :: 0 <= i < k ==> log[i] < a
    requires forall i :: 0 <= i < dropped ==> log[k..][i] < b
    ensures log[k..][dropped..] == log[k + dropped..]
    ensures (log + [next])[k + dropped..] == log[k..][dropped..] + [next]
    ensures forall i :: 0 <= i < k + dropped ==> log[i] < (if k == 0 || b > a then b else a)
  {
    forall i | k <= i < k + dropped
      ensures log[i] < b
    {
      assert log[i] == log[k..][i - k];
    }
  }

  lemma {:induction false} LogIsOrdered(policy: RatePolicy, readings: History<real>)
    requires BoundedLag(readings, 0.0)
    ensures forall i :: 0 <= i < |Log(policy, readings)| ==> Log(policy, readings)[i] in Items(readings)
    ensures NonDecreasing(Log(policy, readings))
  {
    match readings
    case Start =>
    case Then(past, now) => LogIsOrdered(policy, past);
  }

  // ---------------------------------------------------------------- the admission bound

  /** Whatever order the callers commit in, as long as readings lag by at most `lag`, any closed
      interval of length window - lag holds at most maxRequests admitted timestamps. */
  lemma {:induction false} IntervalBound(policy: RatePolicy, readings: History<real>, lag: real, lo: real, hi: real)
    requires 0.0 <= lag && BoundedLag(readings, lag)
    requires hi - lo <= Window(policy) - lag
    ensures Count(Log(policy, readings), lo, hi) <= policy.maxRequests
  {
    match readings
    case Start =>
    case Then(past, now) =>
      IntervalBound(policy, past, lag, lo, hi);
      if Answer(policy, past, now).allowed {
        if lo <= now <= hi {
          LastAdmissionSeesItsInterval(policy, readings, lag, lo, hi);
        } else {
          CountConcat(Log(policy, past), [now], lo, hi);
        }
      }
  }

  /** At the last admission every earlier one of its interval is still in the deque. */
  lemma LastAdmissionSeesItsInterval(policy: RatePolicy, readings: History<real>, lag: real, lo: real, hi: real)
    requires 0.0 <= lag && BoundedLag(readings, lag)
    requires readings.Then? && lo <= readings.last <= hi
    requires hi - lo <= Window(policy) - lag
    ensures Count(Log(policy, readings), lo, hi) <= policy.maxRequests
  {
    var k, newest := DequeIsLogSuffix(policy, readings);
    var log := Log(policy, readings);
    assert log == log[..k] + log[k..];
    CountConcat(log[..k], log[k..], lo, hi);
    CountOutside(log[..k], lo, hi);
    CountAtMostLength(log[k..], lo, hi);
  }

  /** With readings in commit order, admissions maxRequests apart are more than a window apart. */
  lemma AdmissionsAreSpaced(policy: RatePolicy, readings: History<real>, i: nat)
    requires BoundedLag(readings, 0.0)
    requires i + policy.maxRequests < |Log(policy, readings)|
    ensures Log(policy, readings)[i + policy.maxRequests] - Log(policy, readings)[i] > policy.windowSeconds as real
  {
    var log, j := Log(policy, readings), i + policy.maxRequests;
    LogIsOrdered(policy, readings);
    if log[j] - log[i] <= Window(policy) {
      IntervalBound(policy, readings, 0.0, log[i], log[j]);
      CountAtLeast(log, i, j + 1, log[i], log[j]);
      assert false;
    }
  }

  lemma {:induction false} CountAtLeast(log: seq<real>, i: nat, m: nat, lo: real, hi: real)
    requires i <= m <= |log| && forall k :: i <= k < m ==> lo <= log[k] <= hi
    ensures Count(log, lo, hi) >= m - i
  {
    if i == m {
    } else {
      var n := |log| - 1;
      CountAtLeast(log[..n], if i < n then i else n, if m < n then m else n, lo, hi);
    }
  }

  // ---------------------------------------------------------------- the bound is exact

  /** n further calls, all with the same reading. */
  function Burst(past: History<real>, at: real, n: nat): History<real> {
    if n == 0 then past else Then(Burst(past, at, n - 1), at)
  }

  lemma {:induction false} BurstIsAdmitted(policy: RatePolicy, past: History<real>, at: real, n: nat)
    requires |After(policy, past)| + n <= policy.maxRequests
    requires After(policy, past) != [] ==> After(policy, past)[0] >= WindowStart(policy, at)
    ensures Log(policy, Burst(past, at, n)) == Log(policy, past) + seq(n, _ => at)
    ensures After(policy, Burst(past, at, n)) == After(policy, past) + seq(n, _ => at)
    ensures Items(Burst(past, at, n)) <= Items(past) + {at}
  {
    if n == 0 {
    } else {
      BurstIsAdmitted(policy, past, at, n - 1);
      assert seq(n, _ => at) == seq(n - 1, _ => at) + [at];
    }
  }

  lemma {:induction false} BurstLag(past: History<real>, at: real, n: nat, lag: real)
    requires 0.0 <= lag && BoundedLag(past, lag) && forall x :: x in Items(past) ==> x - lag <= at
    ensures BoundedLag(Burst(past, at, n), lag)
    ensures Items(Burst(past, at, n)) <= Items(past) + {at}
  {
    if n == 0 {
    } else {
      BurstLag(past, at, n - 1, lag);
    }
  }

  lemma {:induction false} EverythingExpired(ts: seq<real>, windowStart: real)
    requires forall i :: 0 <= i < |ts| ==> ts[i] < windowStart
    ensures Evict(ts, windowStart) == []
  {
    if ts == [] {
    } else {
      EverythingExpired(ts[1..], windowStart);
    }
  }

  /** A full burst at 0, one reading past the window that clears the deque, and the rest of a
      burst whose readings lag behind it. */
  function StaleBurst(policy: RatePolicy, lag: real, past: real): History<real> {
    var late := Window(policy) + past;
    Burst(Then(Burst(Start, 0.0, policy.maxRequests), late), late - lag, policy.maxRequests - 1)
  }

  lemma BurstThenLate(policy: RatePolicy, late: real)
    requires WindowStart(policy, late) > 0.0
    ensures var h := Then(Burst(Start, 0.0, policy.maxRequests), late);
      After(policy, h) == [late] && Log(policy, h) == seq(policy.maxRequests, _ => 0.0) + [late]
  {
    var first := Burst(Start, 0.0, policy.maxRequests);
    BurstIsAdmitted(policy, Start, 0.0, policy.maxRequests);
    EverythingExpired(After(policy, first), WindowStart(policy, late));
  }

  lemma StaleBurstLog(policy: RatePolicy, lag: real, past: real)
    requires policy.maxRequests >= 2 && 0.0 <= lag <= Window(policy) + past && past > 0.0
    ensures Log(policy, StaleBurst(policy, lag, past)) ==
      seq(policy.maxRequests, _ => 0.0) + [Window(policy) + past]
      + seq(policy.maxRequests - 1, _ => Window(policy) + past - lag)
  {
    var m, late := policy.maxRequests, Window(policy) + past;
    BurstThenLate(policy, late);
    BurstIsAdmitted(policy, Then(Burst(Start, 0.0, m), late), late - lag, m - 1);
  }

  lemma StaleBurstLag(policy: RatePolicy, lag: real, past: real)
    requires 0.0 <= lag <= Window(policy) + past && past > 0.0
    ensures BoundedLag(StaleBurst(policy, lag, past), lag)
  {
    var m, late := policy.maxRequests, Window(policy) + past;
    BurstLag(Start, 0.0, m, lag);
    BurstLag(Then(Burst(Start, 0.0, m), late), late - lag, m - 1, lag);
  }

  lemma StaleBurstOverfills(policy: RatePolicy, lag: real, past: real)
    requires policy.maxRequests >= 2 && 0.0 <= lag <= Window(policy) + past && past > 0.0
    ensures BoundedLag(StaleBurst(policy, lag, past), lag)
    ensures Count(Log(policy, StaleBurst(policy, lag, past)), 0.0, Window(policy) + past - lag) > policy.maxRequests
  {
    StaleBurstLag(policy, lag, past);
    StaleBurstLog(policy, lag, past);
    var m, late := policy.maxRequests, Window(policy) + past;
    var zeros, stale := seq(m, _ => 0.0), seq(m - 1, _ => late - lag);
    CountConcat(zeros + [late], stale, 0.0, late - lag);
    CountConcat(zeros, [late], 0.0, late - lag);
    CountInside(zeros, 0.0, late - lag);
    CountInside(stale, 0.0, late - lag);
  }

  /** The closed interval of this length starting at lo is not overfilled. */
  ghost predicate Protected(policy: RatePolicy, readings: History<real>, lo: real, length: real) {
    Count(Log(policy, readings), lo, lo + length) <= policy.maxRequests
  }

  lemma {:induction false} EmptyIntervalHoldsNothing(log: seq<real>, lo: real, hi: real)
    requires hi < lo
    ensures Count(log, lo, hi) == 0
  {
    if log == [] {
    } else {
      EmptyIntervalHoldsNothing(log[..|log| - 1], lo, hi);
    }
  }

  /** Exactly the intervals up to window - lag are protected, when two or more requests are allowed.  With
      a lag beyond the window that is none: even a single instant can be overfilled. */
  lemma ProtectedIntervalsExactly(policy: RatePolicy, lag: real, length: real)
    requires policy.maxRequests >= 2 && 0.0 <= lag
    ensures (forall readings, lo :: BoundedLag(readings, lag) ==> Protected(policy, readings, lo, length))
        <==> length <= Window(policy) - lag || length < 0.0
  {
    if length < 0.0 {
      forall readings, lo | BoundedLag(readings, lag)
        ensures Protected(policy, readings, lo, length)
      {
        EmptyIntervalHoldsNothing(Log(policy, readings), lo, lo + length);
      }
    } else if length <= Window(policy) - lag {
      forall readings, lo | BoundedLag(readings, lag)
        ensures Protected(policy, readings, lo, length)
      {
        IntervalBound(policy, readings, lag, lo, lo + length);
      }
    } else {
      var past := length - (Window(policy) - lag);
      StaleBurstOverfills(policy, lag, past);
      assert !Protected(policy, StaleBurst(policy, lag, past), 0.0, length);
    }
  }

  lemma {:induction false} SingleSlotHoldsTheLatest(policy: RatePolicy, readings: History<real>)
    requires policy.maxRequests == 1
    ensures Log(policy, readings) == [] ==> After(policy, readings) == []
    ensures Log(policy, readings) != [] ==>
      After(policy, readings) == [Log(policy, readings)[|Log(policy, readings)| - 1]]
  {
    match readings
    case Start =>
    case Then(past, now) =>
      SingleSlotHoldsTheLatest(policy, past);
      var dropped := EvictDropsExpired(After(policy, past), WindowStart(policy, now));
  }

  ghost predicate Spaced(log: seq<real>, gap: real) {
    forall i, j :: 0 <= i < j < |log| ==> log[j] - log[i] > gap
  }

  lemma SpacedOneMore(log: seq<real>, gap: real, x: real)
    requires gap >= 0.0 && Spaced(log, gap) && (log != [] ==> x - log[|log| - 1] > gap)
    ensures Spaced(log + [x], gap)
  {
  }

  /** With a single slot the deque always holds the latest admission, so admissions are more than a
      window apart in every commit order, however stale the readings. */
  lemma {:induction false} SingleSlotIgnoresCommitOrder(policy: RatePolicy, readings: History<real>)
    requires policy.maxRequests == 1
    ensures Spaced(Log(policy, readings), policy.windowSeconds as real)
  {
    match readings
    case Start =>
    case Then(past, now) =>
      SingleSlotIgnoresCommitOrder(policy, past);
      if Answer(policy, past, now).allowed {
        SingleSlotHoldsTheLatest(policy, past);
        SpacedOneMore(Log(policy, past), Window(policy), now);
      }
  }

  // ---------------------------------------------------------------- eviction refines the full log

  lemma {:induction false} CountFrom(log: seq<real>, cut: nat, lo: real, hi: real)
    requires cut <= |log|
    requires forall i :: 0 <= i < cut ==> log[i] < lo
    requires forall i :: cut <= i < |log| ==> lo <= log[i] <= hi
    ensures Count(log, lo, hi) == |log| - cut
  {
    if log == [] {
    } else {
      var n := |log| - 1;
      CountFrom(log[..n], if cut < n then cut else n, lo, hi);
    }
  }

  /** With readings in commit order, eviction keeps exactly the log entries of the last window. */
  lemma LiveEntriesAreTheRecentOnes(policy: RatePolicy, past: History<real>, now: real)
    requires BoundedLag(Then(past, now), 0.0)
    ensures Count(Log(policy, past), WindowStart(policy, now), now) ==
      |Evict(After(policy, past), WindowStart(policy, now))| <= policy.maxRequests
  {
    var start, log := WindowStart(policy, now), Log(policy, past);
    var k, newest := DequeIsLogSuffix(policy, past);
    LogIsOrdered(policy, past);
    var dropped := EvictDropsExpired(log[k..], start);
    EvictionCutsTheLog(log, k, dropped, start, now);
  }

  lemma EvictionCutsTheLog(log: seq<real>, k: nat, dropped: nat, start: real, now: real)
    requires k + dropped <= |log| && NonDecreasing(log)
    requires forall i :: 0 <= i < k ==> log[i] < start
    requires forall i :: 0 <= i < dropped ==> log[k..][i] < start
    requires dropped < |log[k..]| ==> start <= log[k..][dropped]
    requires forall i :: 0 <= i < |log| ==> log[i] <= now
    ensures Count(log, start, now) == |log| - (k + dropped)
  {
    var cut := k + dropped;
    forall i | 0 <= i < cut
      ensures log[i] < start
    {
      assert i >= k ==> log[i] == log[k..][i - k];
    }
    assert cut < |log| ==> log[k..][dropped] == log[cut];
    CountFrom(log, cut, start, now);
  }

  /** The evicting deque decides as if it had kept every admission and counted those of the last window. */
  lemma DecisionsMatchFullLog(policy: RatePolicy, past: History<real>, now: real)
    requires BoundedLag(Then(past, now), 0.0)
    ensures var recent := Count(Log(policy, past), now - policy.windowSeconds as real, now);
      && recent <= policy.maxRequests
      && (Answer(policy, past, now).allowed <==> recent < policy.maxRequests)
      && Answer(policy, past, now).remaining ==
          (if Answer(policy, past, now).allowed then policy.maxRequests - recent - 1 else 0)
  {
    LiveEntriesAreTheRecentOnes(policy, past, now);
    var start := WindowStart(policy, now);
    assert start == now - policy.windowSeconds as real;
    DecidedByLive(policy, After(policy, past), now);
  }

  lemma DecidedByLive(policy: RatePolicy, ts: seq<real>, now: real)
    ensures var live, verdict := |Evict(ts, WindowStart(policy, now))|, Decide(policy, ts, now).verdict;
      && (verdict.allowed <==> live < policy.maxRequests)
      && verdict.remaining == (if live < policy.maxRequests then policy.maxRequests - live - 1 else 0)
  {
  }

  // ---------------------------------------------------------------- retry hint

  /** With no call in between, the next request after a rejection is admitted exactly from the hinted
      number of whole seconds on; the readings before may be in any order. */
  lemma RetryHintIsLeast(policy: RatePolicy, past: History<real>, now: real, wait: nat)
    requires !Answer(policy, past, now).allowed
    ensures Answer(policy, Then(past, now), now + wait as real).allowed
        <==> wait >= Answer(policy, past, now).retryAfterSeconds
  {
    var k, newest := DequeIsLogSuffix(policy, past);
    var start := WindowStart(policy, now);
    var dropped := EvictDropsExpired(After(policy, past), start);
    var live := Evict(After(policy, past), start);
    var later := EvictDropsExpired(live, WindowStart(policy, now + wait as real));
    WholeSecondsBeyond(live[0] - start, wait);
  }

  lemma WholeSecondsBeyond(slack: real, wait: nat)
    requires slack >= 0.0
    ensures slack < wait as real <==> Truncate(slack) + 1 <= wait
  {
    assert slack.Floor as real <= slack < slack.Floor as real + 1.0;
  }

  // ---------------------------------------------------------------- tenants do not interact

  function Project(calls: History<Call>, tenant: string): History<real> {
    match calls
    case Start => Start
    case Then(past, call) =>
      if call.tenant == tenant then Then(Project(past, tenant), call.now) else Project(past, tenant)
  }

  lemma {:induction false} TenantSeesOnlyItsOwnCalls(limits: Limits, calls: History<Call>, tenant: string)
    ensures tenant in limits.perTenant ==>
      DequeOf(DequesAfter(limits, calls), tenant) == After(limits.perTenant[tenant], Project(calls, tenant))
    ensures tenant !in limits.perTenant ==>
      DequeOf(DequesAfter(limits, calls), tenant) == After(limits.byDefault, Project(calls, tenant))
  {
    match calls
    case Start =>
    case Then(past, call) => TenantSeesOnlyItsOwnCalls(limits, past, tenant);
  }

  /** A call in an interleaved run is answered as in the run of its tenant alone, under the tenant's own
      policy if it has one and under the default otherwise. */
  lemma AnswersProject(limits: Limits, past: History<Call>, call: Call)
    ensures call.tenant in limits.perTenant ==>
      AnswerCall(limits, past, call) == Answer(limits.perTenant[call.tenant], Project(past, call.tenant), call.now)
    ensures call.tenant !in limits.perTenant ==>
      AnswerCall(limits, past, call) == Answer(limits.byDefault, Project(past, call.tenant), call.now)
  {
    TenantSeesOnlyItsOwnCalls(limits, past, call.tenant);
  }
}
