/** Concurrent callers of one bucket.  A caller reads the clock first and takes the lock later, so
    between the two steps any number of other callers may read the clock, commit, or both. */
module OverlappingCallers {
  import opened Common
  import opened RateLimit
  import opened RateLimitGuarantee

  datatype System = System(
    clock: real,
    pending: map<nat, real>,   // callers that have read the clock and not yet taken the lock
    timestamps: seq<real>,     // the deque
    admitted: seq<real>)       // every admission so far, in commit order

  datatype Event = Tick(seconds: real) | ReadClock(caller: nat) | Commit(caller: nat)

  const INITIAL := System(0.0, map[], [], [])

  /** `delay` bounds how long a caller can take from reading the clock to holding the lock. */
  predicate Enabled(delay: real, s: System, e: Event) {
    match e
    case Tick(seconds) => seconds >= 0.0
    case ReadClock(caller) => caller !in s.pending
    case Commit(caller) => caller in s.pending && s.clock - s.pending[caller] <= delay
  }

  function Apply(policy: RatePolicy, s: System, e: Event): System {
    match e
    case Tick(seconds) => s.(clock := s.clock + seconds)
    case ReadClock(caller) => s.(pending := s.pending[caller := s.clock])
    case Commit(caller) =>
      if caller !in s.pending then s else
      var now := s.pending[caller];
      var outcome := Decide(policy, s.timestamps, now);
      s.(pending := s.pending - {caller},
         timestamps := outcome.timestamps,
         admitted := if outcome.verdict.allowed then s.admitted + [now] else s.admitted)
  }

  function Reached(policy: RatePolicy, events: History<Event>): System {
    match events
    case Start => INITIAL
    case Then(past, e) => Apply(policy, Reached(policy, past), e)
  }

  predicate Schedule(policy: RatePolicy, delay: real, events: History<Event>) {
    match events
    case Start => true
    case Then(past, e) => Schedule(policy, delay, past) && Enabled(delay, Reached(policy, past), e)
  }

  /** The readings committed so far, in the order the lock was taken. */
  function Committed(policy: RatePolicy, events: History<Event>): History<real> {
    match events
    case Start => Start
    case Then(past, e) =>
      var s := Reached(policy, past);
      if e.Commit? && e.caller in s.pending then Then(Committed(policy, past), s.pending[e.caller])
      else Committed(policy, past)
  }

  lemma {:induction false} ScheduleHasBoundedLag(policy: RatePolicy, delay: real, events: History<Event>)
    requires delay >= 0.0 && Schedule(policy, delay, events)
    ensures var s := Reached(policy, events);
      var readings := Committed(policy, events);
      && s.timestamps == After(policy, readings)
      && s.admitted == Log(policy, readings)
      && BoundedLag(readings, delay)
      && (forall x :: x in Items(readings) ==> x <= s.clock)
      && (forall c :: c in s.pending ==> s.pending[c] <= s.clock)
  {
    match events
    case Start =>
    case Then(past, e) => ScheduleHasBoundedLag(policy, delay, past);
  }

  /** In every interleaving, a closed interval shorter than the window by the longest delay between
      clock reading and lock holds at most maxRequests admissions. */
  lemma NoInterleavingOverfills(policy: RatePolicy, delay: real, events: History<Event>, lo: real, hi: real)
    requires delay >= 0.0 && Schedule(policy, delay, events)
    requires hi - lo <= Window(policy) - delay
    ensures Count(Reached(policy, events).admitted, lo, hi) <= policy.maxRequests
  {
    ScheduleHasBoundedLag(policy, delay, events);
    IntervalBound(policy, Committed(policy, events), delay, lo, hi);
  }

  // ---------------------------------------------------------------- the bound is reached

  /** n calls by one caller, each taking the lock at once. */
  function PromptCalls(n: nat): History<Event> {
    if n == 0 then Start else Then(Then(PromptCalls(n - 1), ReadClock(0)), Commit(0))
  }

  lemma {:induction false} PromptCallsCommit(policy: RatePolicy, delay: real, n: nat)
    requires delay >= 0.0
    ensures var h := PromptCalls(n);
      && Schedule(policy, delay, h) && Committed(policy, h) == Burst(Start, 0.0, n)
      && Reached(policy, h).clock == 0.0 && Reached(policy, h).pending == map[]
  {
    if n == 0 {
    } else {
      PromptCallsCommit(policy, delay, n - 1);
      var h := Then(PromptCalls(n - 1), ReadClock(0));
      assert Schedule(policy, delay, h) && Reached(policy, h).pending == map[0 := 0.0];
      assert Reached(policy, PromptCalls(n)).pending == map[];
    }
  }

  /** Exactly the callers from first to last are waiting for the lock, all with the same reading. */
  ghost predicate Waiting(pending: map<nat, real>, first: nat, last: nat, at: real) {
    && (forall c :: c in pending ==> first <= c <= last && pending[c] == at)
    && (forall c: nat :: first <= c <= last ==> c in pending)
  }

  /** Callers 1 to k read the clock. */
  function Readers(past: History<Event>, k: nat): History<Event> {
    if k == 0 then past else Then(Readers(past, k - 1), ReadClock(k))
  }

  lemma {:induction false} ReadersWait(policy: RatePolicy, delay: real, past: History<Event>, k: nat)
    requires Schedule(policy, delay, past) && Reached(policy, past).pending == map[]
    ensures var h := Readers(past, k);
      && Schedule(policy, delay, h) && Committed(policy, h) == Committed(policy, past)
      && Reached(policy, h).clock == Reached(policy, past).clock
      && Waiting(Reached(policy, h).pending, 1, k, Reached(policy, past).clock)
  {
    if k == 0 {
    } else {
      ReadersWait(policy, delay, past, k - 1);
    }
  }

  /** Callers 1 to k take the lock. */
  function Committers(past: History<Event>, k: nat): History<Event> {
    if k == 0 then past else Then(Committers(past, k - 1), Commit(k))
  }

  lemma {:induction false} CommittersFollow(policy: RatePolicy, delay: real, past: History<Event>, k: nat, all: nat,
    at: real)
    requires k <= all && Schedule(policy, delay, past) && Reached(policy, past).clock - at <= delay
    requires Waiting(Reached(policy, past).pending, 1, all, at)
    ensures var h := Committers(past, k);
      && Schedule(policy, delay, h) && Committed(policy, h) == Burst(Committed(policy, past), at, k)
      && Reached(policy, h).clock == Reached(policy, past).clock
      && Waiting(Reached(policy, h).pending, k + 1, all, at)
  {
    if k == 0 {
    } else {
      CommittersFollow(policy, delay, past, k - 1, all, at);
    }
  }

  /** A prompt burst at 0; then all callers but one read the clock and are held up; the one calls just
      after the window, or as late as the others can be held up; then the others take the lock. */
  function HeldUp(policy: RatePolicy, delay: real, past: real): History<Event> {
    var held := policy.maxRequests - 1;
    var before := Then(PromptCalls(policy.maxRequests), Tick(Window(policy) + past - delay));
    var waiting := Then(Readers(before, held), Tick(delay));
    Committers(Then(Then(waiting, ReadClock(0)), Commit(0)), held)
  }

  lemma HeldUpIsAStaleBurst(policy: RatePolicy, delay: real, past: real)
    requires 0.0 <= delay <= Window(policy) + past && past > 0.0
    ensures Schedule(policy, delay, HeldUp(policy, delay, past))
    ensures Committed(policy, HeldUp(policy, delay, past)) == StaleBurst(policy, delay, past)
  {
    var held, late := policy.maxRequests - 1, Window(policy) + past;
    PromptCallsCommit(policy, delay, policy.maxRequests);
    var before := Then(PromptCalls(policy.maxRequests), Tick(late - delay));
    assert Schedule(policy, delay, before);
    ReadersWait(policy, delay, before, held);
    var waiting := Then(Readers(before, held), Tick(delay));
    LateCall(policy, delay, waiting, late);
    CommittersFollow(policy, delay, Then(Then(waiting, ReadClock(0)), Commit(0)), held, held, late - delay);
  }

  lemma LateCall(policy: RatePolicy, delay: real, waiting: History<Event>, late: real)
    requires delay >= 0.0 && Schedule(policy, delay, waiting)
    requires Reached(policy, waiting).clock == late && 0 !in Reached(policy, waiting).pending
    ensures var h := Then(Then(waiting, ReadClock(0)), Commit(0));
      && Schedule(policy, delay, h) && Committed(policy, h) == Then(Committed(policy, waiting), late)
      && Reached(policy, h).clock == late && Reached(policy, h).pending == Reached(policy, waiting).pending
  {
    var s := Reached(policy, waiting);
    assert s.pending[0 := late] - {0} == s.pending;
  }

  ghost predicate NotOverfilled(policy: RatePolicy, events: History<Event>, lo: real, length: real) {
    Count(Reached(policy, events).admitted, lo, lo + length) <= policy.maxRequests
  }

  /** Over all interleavings, exactly the intervals up to window - delay are protected, when two or more
      requests are allowed.  If callers can be held up for longer than the window, a single instant can
      be overfilled. */
  lemma InterleavingsProtectExactly(policy: RatePolicy, delay: real, length: real)
    requires policy.maxRequests >= 2 && 0.0 <= delay
    ensures (forall events, lo :: Schedule(policy, delay, events) ==> NotOverfilled(policy, events, lo, length))
        <==> length <= Window(policy) - delay || length < 0.0
  {
    if length < 0.0 {
      forall events, lo | Schedule(policy, delay, events)
        ensures NotOverfilled(policy, events, lo, length)
      {
        EmptyIntervalHoldsNothing(Reached(policy, events).admitted, lo, lo + length);
      }
    } else if length <= Window(policy) - delay {
      forall events, lo | Schedule(policy, delay, events)
        ensures NotOverfilled(policy, events, lo, length)
      {
        NoInterleavingOverfills(policy, delay, events, lo, lo + length);
      }
    } else {
      var past := length - (Window(policy) - delay);
      var events := HeldUp(policy, delay, past);
      HeldUpIsAStaleBurst(policy, delay, past);
      ScheduleHasBoundedLag(policy, delay, events);
      StaleBurstOverfills(policy, delay, past);
      assert !NotOverfilled(policy, events, 0.0, length);
    }
  }
}
