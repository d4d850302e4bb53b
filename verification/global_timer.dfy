/** The global timer store: one browser interval shared by every registered
    polling job, started and stopped by a subscriber counter.

    The store's mutable state (`jobs`, `subscribers`, `timerId`) is an immutable
    `Store` value here, and each exported or internal function of the store is a
    pure transition on it. Job callbacks are opaque tokens: the model never runs
    them, it logs each invocation to `trace` together with whether that call
    threw synchronously, which the caller of a transition supplies. */
module GlobalTimer {
  import opened Wrappers
  import opened JobTable

  /** A job's callback `fn`, as an opaque token. */
  datatype Action = Action(tag: nat)

  /** Whether a callback ran from `registerJob` or from the interval. */
  datatype Origin = Immediate | Interval

  /** One invocation of a job's callback. */
  datatype Call = Call(id: string, fn: Action, origin: Origin, threw: bool)

  /** The browser's interval registry as far as this store uses it: how many
      handles `setInterval` has handed out, and which of them are still live. */
  datatype Intervals = Intervals(issued: nat, live: set<nat>)

  datatype Store = Store(
    intervalMs: int,
    jobs: Table<Action>,
    subscribers: int,
    timerId: Option<nat>,
    intervals: Intervals,
    trace: seq<Call>)

  const DefaultIntervalMs: int := 15000

  /** `Number(VITE_GLOBAL_TIMER_INTERVAL) || 15000`. `None` stands for a value
      that is unset or does not parse (NaN); both NaN and 0 are falsy. */
  function IntervalFromEnv(env: Option<int>): (ms: int)
    ensures ms != 0
    ensures env.Some? && env.value != 0 ==> ms == env.value
    ensures env.None? || env.value == 0 ==> ms == DefaultIntervalMs
  {
    match env
    case Some(v) => if v == 0 then DefaultIntervalMs else v
    case None => DefaultIntervalMs
  }

  /** The state the store starts in. */
  function Init(env: Option<int>): (s: Store)
    ensures Valid(s)
    ensures s.jobs == [] && s.subscribers == 0 && s.timerId == None && s.trace == []
    ensures s.intervalMs == IntervalFromEnv(env) && s.intervalMs != 0
  {
    Store(IntervalFromEnv(env), [], 0, None, Intervals(0, {}), [])
  }

  /** The store's invariant: the counter is never negative, the shared interval
      exists exactly while the counter is positive, it is the only interval of
      this store that is live, and the registry has one entry per id. */
  predicate Valid(s: Store) {
    && s.subscribers >= 0
    && (s.timerId.Some? <==> s.subscribers > 0)
    && s.intervals.live == (if s.timerId.Some? then {s.timerId.value} else {})
    && (forall h :: h in s.intervals.live ==> h < s.intervals.issued)
    && UniqueIds(s.jobs)
  }

  /** `startTimer`: creates the interval unless one is already held. */
  function StartTimer(s: Store): (r: Store)
    ensures r.timerId.Some?
    ensures s.timerId.Some? ==> r == s
    ensures s.timerId.None? ==>
      && r.intervals.issued == s.intervals.issued + 1
      && r.intervals.live == s.intervals.live + {r.timerId.value}
      && ((forall h :: h in s.intervals.live ==> h < s.intervals.issued) ==> r.timerId.value !in s.intervals.live)
    ensures r.(timerId := s.timerId, intervals := s.intervals) == s
  {
    if s.timerId.None? then
      var h := s.intervals.issued;
      s.(timerId := Some(h), intervals := Intervals(h + 1, s.intervals.live + {h}))
    else
      s
  }

  /** `stopTimer`: clears the held interval, if any. */
  function StopTimer(s: Store): (r: Store)
    ensures r.timerId.None?
    ensures s.timerId.None? ==> r == s
    ensures s.timerId.Some? ==>
      && r.intervals.issued == s.intervals.issued
      && r.intervals.live == s.intervals.live - {s.timerId.value}
    ensures r.(timerId := s.timerId, intervals := s.intervals) == s
  {
    match s.timerId
    case Some(h) => s.(timerId := None, intervals := s.intervals.(live := s.intervals.live - {h}))
    case None => s
  }

  /** `addSubscriber`: counts one more subscriber and starts the interval on
      the transition to exactly one. */
  function AddSubscriber(s: Store): (r: Store)
    ensures r.subscribers == s.subscribers + 1
    ensures r.jobs == s.jobs && r.trace == s.trace && r.intervalMs == s.intervalMs
    ensures Valid(s) ==> Valid(r)
    ensures Valid(s) ==> (r.intervals.issued == s.intervals.issued + 1 <==> s.subscribers == 0)
    ensures s.subscribers != 0 ==> r.timerId == s.timerId && r.intervals == s.intervals
  {
    var t := s.(subscribers := s.subscribers + 1);
    if t.subscribers == 1 then StartTimer(t) else t
  }

  /** `removeSubscriber`: counts one subscriber less, clamping at zero, and
      stops the interval whenever the count is not positive. */
  function RemoveSubscriber(s: Store): (r: Store)
    ensures r.subscribers >= 0
    ensures s.subscribers >= 1 ==> r.subscribers == s.subscribers - 1
    ensures r.subscribers > 0 || r.timerId.None?
    ensures r.jobs == s.jobs && r.trace == s.trace && r.intervalMs == s.intervalMs
    ensures Valid(s) ==> Valid(r)
    ensures Valid(s) ==> (r.timerId.None? <==> s.subscribers <= 1)
    ensures s.subscribers > 1 ==> r.timerId == s.timerId && r.intervals == s.intervals
  {
    var t := s.(subscribers := s.subscribers - 1);
    if t.subscribers <= 0 then StopTimer(t.(subscribers := 0)) else t
  }

  /** `registerJob(id, fn)`: stores the job (replacing any earlier action for
      `id`), calls `fn` once at once, and, whether or not that call threw,
      adds a subscriber. */
  function RegisterJob(s: Store, id: string, fn: Action, threw: bool): (r: Store)
    ensures r.jobs == Put(s.jobs, id, fn)
    ensures Get(r.jobs, id) == Some(fn)
    ensures forall k :: k != id ==> Get(r.jobs, k) == Get(s.jobs, k)
    ensures r.trace == s.trace + [Call(id, fn, Immediate, threw)]
    ensures r.subscribers == s.subscribers + 1
    ensures r.intervalMs == s.intervalMs
    ensures Valid(s) ==> Valid(r) && r.timerId.Some?
    ensures Valid(s) ==> (r.intervals.issued == s.intervals.issued + 1 <==> s.subscribers == 0)
    ensures s.subscribers != 0 ==> r.timerId == s.timerId && r.intervals == s.intervals
  {
    var stored := s.(jobs := Put(s.jobs, id, fn));
    var called := stored.(trace := stored.trace + [Call(id, fn, Immediate, threw)]);
    AddSubscriber(called)
  }

  /** `unregisterJob(id)`: drops the job and removes a subscriber, even when no
      job was stored under `id`. */
  function UnregisterJob(s: Store, id: string): (r: Store)
    ensures r.jobs == Remove(s.jobs, id)
    ensures Get(r.jobs, id) == None
    ensures forall k :: k != id ==> Get(r.jobs, k) == Get(s.jobs, k)
    ensures r.trace == s.trace
    ensures r.subscribers == if s.subscribers <= 1 then 0 else s.subscribers - 1
    ensures r.intervalMs == s.intervalMs
    ensures Valid(s) ==> Valid(r)
    ensures Valid(s) ==> (r.timerId.None? <==> s.subscribers <= 1)
    ensures s.subscribers > 1 ==> r.timerId == s.timerId && r.intervals == s.intervals
  {
    RemoveSubscriber(s.(jobs := Remove(s.jobs, id)))
  }

  /** How many callbacks one interval callback reaches over `n` jobs when the
      one at position `throwAt` (if any) throws. */
  function Reached(n: nat, throwAt: Option<nat>): nat {
    if throwAt.Some? && throwAt.value < n then throwAt.value + 1 else n
  }

  /** The loop in the interval callback: calls each job's `fn` in iteration
      order. There is no try/catch, so the call at position `throwAt` (if any)
      throws and ends the loop. */
  function Fire(jobs: Table<Action>, throwAt: Option<nat>): (calls: seq<Call>)
    ensures |calls| == Reached(|jobs|, throwAt)
    ensures forall i {:trigger calls[i]} :: 0 <= i < |calls| ==>
      calls[i] == Call(jobs[i].id, jobs[i].fn, Interval, throwAt == Some(i))
    decreases |jobs|
  {
    if |jobs| == 0 then []
    else if throwAt == Some(0) then [Call(jobs[0].id, jobs[0].fn, Interval, true)]
    else
      var next := match throwAt case Some(k) => Some(k - 1) case None => None;
      var rest := Fire(jobs[1..], next);
      var calls := [Call(jobs[0].id, jobs[0].fn, Interval, false)] + rest;
      FireShift(jobs, throwAt, next, rest, calls);
      calls
  }

  /** The calls of a non-empty job list are the head's call followed by the
      tail's calls, with the throwing position shifted by one. */
  lemma FireShift(jobs: Table<Action>, throwAt: Option<nat>, next: Option<nat>, rest: seq<Call>, calls: seq<Call>)
    requires |jobs| > 0 && throwAt != Some(0)
    requires next == match throwAt case Some(k) => Some(k - 1) case None => None
    requires |rest| == Reached(|jobs| - 1, next)
    requires forall i {:trigger rest[i]} :: 0 <= i < |rest| ==> rest[i] == Call(jobs[1..][i].id, jobs[1..][i].fn, Interval, next == Some(i))
    requires calls == [Call(jobs[0].id, jobs[0].fn, Interval, false)] + rest
    ensures |calls| == Reached(|jobs|, throwAt)
    ensures forall i {:trigger calls[i]} :: 0 <= i < |calls| ==> calls[i] == Call(jobs[i].id, jobs[i].fn, Interval, throwAt == Some(i))
  {
  }

  /** One elapse of the shared interval. Only a live interval fires; a throw
      inside the callback does not clear it. */
  function Tick(s: Store, throwAt: Option<nat>): (r: Store)
    ensures r.(trace := s.trace) == s
    ensures s.timerId.None? ==> r == s
    ensures s.timerId.Some? ==> r.trace == s.trace + Fire(s.jobs, throwAt)
    ensures Valid(s) ==> Valid(r)
  {
    if s.timerId.None? then s else s.(trace := s.trace + Fire(s.jobs, throwAt))
  }

  /** What can happen to the store: a call of one of its two exported
      functions, or an elapse of the interval. */
  datatype Step =
    | Register(id: string, fn: Action, threw: bool)
    | Unregister(id: string)
    | Elapse(throwAt: Option<nat>)

  function Apply(s: Store, step: Step): (r: Store)
    ensures Valid(s) ==> Valid(r)
  {
    match step
    case Register(id, fn, threw) => RegisterJob(s, id, fn, threw)
    case Unregister(id) => UnregisterJob(s, id)
    case Elapse(throwAt) => Tick(s, throwAt)
  }

  /** Applies the steps in order. */
  function Run(s: Store, steps: seq<Step>): (r: Store)
    ensures Valid(s) ==> Valid(r)
    ensures r.intervalMs == s.intervalMs
    decreases |steps|
  {
    if |steps| == 0 then s else Run(Apply(s, steps[0]), steps[1..])
  }
}
