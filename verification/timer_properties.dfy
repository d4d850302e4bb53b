/** Properties of the global timer store over several steps: invocation
    counts per tick, re-registration, a throwing callback ending its tick,
    and the asymmetry between the subscriber counter and the registry. */
module TimerProperties {
  import opened Wrappers
  import opened JobTable
  import opened GlobalTimer

  /** How many times the trace shows `fn` called under `id`. */
  function Invocations(trace: seq<Call>, id: string, fn: Action): nat
    decreases |trace|
  {
    if |trace| == 0 then 0
    else (if trace[0].id == id && trace[0].fn == fn then 1 else 0) + Invocations(trace[1..], id, fn)
  }

  lemma {:induction false} InvocationsAppend(a: seq<Call>, b: seq<Call>, id: string, fn: Action)
    ensures Invocations(a + b, id, fn) == Invocations(a, id, fn) + Invocations(b, id, fn)
    decreases |a|
  {
    if |a| > 0 {
      assert (a + b)[1..] == a[1..] + b;
      InvocationsAppend(a[1..], b, id, fn);
    } else {
      assert a + b == b;
    }
  }

  /** A trace with no call under `id` counts no invocation under `id`. */
  lemma {:induction false} NoInvocations(trace: seq<Call>, id: string, fn: Action)
    requires forall i :: 0 <= i < |trace| ==> trace[i].id != id
    ensures Invocations(trace, id, fn) == 0
    decreases |trace|
  {
    if |trace| > 0 {
      assert forall i :: 1 <= i < |trace| ==> trace[1..][i - 1] == trace[i];
      NoInvocations(trace[1..], id, fn);
    }
  }

  /** A tick in which nothing throws calls each registered job exactly once,
      with the action currently stored for it, and calls nothing else. */
  lemma {:induction false} FireCallsEachJobOnce(jobs: Table<Action>, id: string, fn: Action)
    requires UniqueIds(jobs)
    ensures Invocations(Fire(jobs, None), id, fn) == if Get(jobs, id) == Some(fn) then 1 else 0
    decreases |jobs|
  {
    if |jobs| > 0 {
      var tail := jobs[1..];
      assert Fire(jobs, None) == [Call(jobs[0].id, jobs[0].fn, Interval, false)] + Fire(tail, None);
      InvocationsAppend([Call(jobs[0].id, jobs[0].fn, Interval, false)], Fire(tail, None), id, fn);
      assert UniqueIds(tail) by {
        forall a, b | 0 <= a < b < |tail| ensures tail[a].id != tail[b].id {
          assert tail[a] == jobs[a + 1] && tail[b] == jobs[b + 1];
        }
      }
      FireCallsEachJobOnce(tail, id, fn);
      GetCons(jobs);
      if id == jobs[0].id {
        assert !HasId(tail, id) by {
          forall i | 0 <= i < |tail| ensures tail[i].id != id { assert tail[i] == jobs[i + 1]; }
        }
      }
    }
  }

  /** A callback that throws synchronously ends its tick: the jobs after it in
      iteration order are not called in that tick, and the interval stays live. */
  lemma ThrowEndsTick(s: Store, k: nat, j: nat)
    requires Valid(s) && s.timerId.Some?
    requires k < j < |s.jobs|
    ensures Invocations(Tick(s, Some(k)).trace, s.jobs[j].id, s.jobs[j].fn)
         == Invocations(s.trace, s.jobs[j].id, s.jobs[j].fn)
    ensures Tick(s, Some(k)).timerId == s.timerId
  {
    var calls := Fire(s.jobs, Some(k));
    assert Tick(s, Some(k)).trace == s.trace + calls;
    assert |calls| == k + 1;
    forall i | 0 <= i < |calls| ensures calls[i].id != s.jobs[j].id {
      assert calls[i].id == s.jobs[i].id;
    }
    InvocationsAppend(s.trace, calls, s.jobs[j].id, s.jobs[j].fn);
    NoInvocations(calls, s.jobs[j].id, s.jobs[j].fn);
  }

  /** A throw in one tick does not carry over: the next quiet tick calls
      every registered job again, the skipped ones included. */
  lemma NextTickCallsAllAgain(s: Store, k: nat, id: string, fn: Action)
    requires Valid(s) && s.timerId.Some?
    requires Get(s.jobs, id) == Some(fn)
    ensures var t := Tick(s, Some(k));
      Invocations(Tick(t, None).trace, id, fn) == Invocations(t.trace, id, fn) + 1
  {
    var t := Tick(s, Some(k));
    assert t.jobs == s.jobs && t.timerId == s.timerId;
    InvocationsAppend(t.trace, Fire(t.jobs, None), id, fn);
    FireCallsEachJobOnce(t.jobs, id, fn);
  }

  /** `n` elapses of the interval in which no callback throws. */
  function Ticks(s: Store, n: nat): Store
    decreases n
  {
    if n == 0 then s else Ticks(Tick(s, None), n - 1)
  }

  /** `n` copies of `c`, one after another. */
  function Repeat(c: seq<Call>, n: nat): seq<Call>
    decreases n
  {
    if n == 0 then [] else c + Repeat(c, n - 1)
  }

  lemma {:induction false} InvocationsRepeat(c: seq<Call>, n: nat, id: string, fn: Action)
    ensures Invocations(Repeat(c, n), id, fn) == n * Invocations(c, id, fn)
    decreases n
  {
    if n > 0 {
      var k := Invocations(c, id, fn);
      assert Repeat(c, n) == c + Repeat(c, n - 1);
      InvocationsAppend(c, Repeat(c, n - 1), id, fn);
      InvocationsRepeat(c, n - 1, id, fn);
      assert n * k == k + (n - 1) * k;
    }
  }

  lemma RepeatUnfold(a: seq<Call>, c: seq<Call>, n: nat)
    requires n > 0
    ensures (a + c) + Repeat(c, n - 1) == a + Repeat(c, n)
  {
  }

  /** While the interval is live, `n` quiet ticks log the same round of
      calls `n` times after the existing trace. */
  lemma {:induction false} TicksTrace(s: Store, n: nat)
    requires s.timerId.Some?
    ensures Ticks(s, n).trace == s.trace + Repeat(Fire(s.jobs, None), n)
    decreases n
  {
    var c := Fire(s.jobs, None);
    if n == 0 {
      assert s.trace + Repeat(c, 0) == s.trace;
    } else {
      var t := Tick(s, None);
      assert t.jobs == s.jobs && t.timerId == s.timerId && t.trace == s.trace + c;
      assert Ticks(s, n) == Ticks(t, n - 1);
      TicksTrace(t, n - 1);
      RepeatUnfold(s.trace, c, n);
    }
  }

  /** While the interval is live, `n` quiet ticks call every registered job
      `n` more times, with its current action. */
  lemma TicksCallEachJob(s: Store, n: nat, id: string, fn: Action)
    requires UniqueIds(s.jobs) && s.timerId.Some?
    requires Get(s.jobs, id) == Some(fn)
    ensures Invocations(Ticks(s, n).trace, id, fn) == Invocations(s.trace, id, fn) + n
  {
    var c := Fire(s.jobs, None);
    TicksTrace(s, n);
    InvocationsAppend(s.trace, Repeat(c, n), id, fn);
    InvocationsRepeat(c, n, id, fn);
    FireCallsEachJobOnce(s.jobs, id, fn);
  }

  /** A job registered once and then left alone through `n` quiet ticks has
      been called `1 + n` times: once at registration (whether or not that
      call threw) and once per tick. */
  lemma RegisteredJobCalledOncePlusTicks(s: Store, id: string, fn: Action, threw: bool, n: nat)
    requires Valid(s)
    ensures Invocations(Ticks(RegisterJob(s, id, fn, threw), n).trace, id, fn)
         == Invocations(s.trace, id, fn) + 1 + n
  {
    var r := RegisterJob(s, id, fn, threw);
    InvocationsAppend(s.trace, [Call(id, fn, Immediate, threw)], id, fn);
    TicksCallEachJob(r, n, id, fn);
  }

  /** Re-registering an id replaces its action: the next tick calls the new
      action and not the old one. */
  lemma ReRegisterReplaces(s: Store, id: string, before: Action, after: Action, t1: bool, t2: bool)
    requires Valid(s)
    requires before != after
    ensures var r := RegisterJob(RegisterJob(s, id, before, t1), id, after, t2);
      && Invocations(Tick(r, None).trace, id, after) == Invocations(r.trace, id, after) + 1
      && Invocations(Tick(r, None).trace, id, before) == Invocations(r.trace, id, before)
  {
    var r := RegisterJob(RegisterJob(s, id, before, t1), id, after, t2);
    InvocationsAppend(r.trace, Fire(r.jobs, None), id, after);
    InvocationsAppend(r.trace, Fire(r.jobs, None), id, before);
    FireCallsEachJobOnce(r.jobs, id, after);
    FireCallsEachJobOnce(r.jobs, id, before);
  }

  /** The store starts valid and stays valid whatever it is asked to do: the
      counter is never negative, the interval is live exactly while the counter
      is positive, and at most one interval of the store is ever live. */
  lemma AlwaysValid(env: Option<int>, steps: seq<Step>)
    ensures var s := Run(Init(env), steps);
      && Valid(s)
      && s.subscribers >= 0
      && (s.timerId.Some? <==> s.subscribers > 0)
      && |s.intervals.live| <= 1
  {
    var s := Run(Init(env), steps);
    assert Valid(s);
  }

  /** The counter counts calls, not ids: registering one id twice adds two
      subscribers while the registry gains at most one entry, so a single
      unregister leaves the interval running with the id gone. */
  lemma DoubleRegisterCountsTwice(s: Store, id: string, a: Action, b: Action, t1: bool, t2: bool)
    requires Valid(s)
    ensures var r := RegisterJob(RegisterJob(s, id, a, t1), id, b, t2);
      && r.subscribers == s.subscribers + 2
      && AsMap(r.jobs) == AsMap(s.jobs)[id := b]
      && var u := UnregisterJob(r, id);
         u.timerId.Some? && u.subscribers == s.subscribers + 1 && id !in AsMap(u.jobs)
  {
    var r1 := RegisterJob(s, id, a, t1);
    var r := RegisterJob(r1, id, b, t2);
    assert Valid(r1) && r1.subscribers == s.subscribers + 1;
    assert Valid(r) && r.subscribers == s.subscribers + 2;
    MapAfterTwoPuts(s.jobs, id, a, b);
    var u := UnregisterJob(r, id);
    assert u.subscribers == s.subscribers + 1;
    AsMapLookup(u.jobs, id);
  }

  lemma MapAfterTwoPuts(t: Table<Action>, id: string, a: Action, b: Action)
    ensures AsMap(Put(Put(t, id, a), id, b)) == AsMap(t)[id := b]
  {
    var r := Put(Put(t, id, a), id, b);
    forall k | k != id ensures Get(r, k) == Get(t, k) {
      assert Get(r, k) == Get(Put(t, id, a), k);
    }
    LookupsGiveUpdate(r, t, id, b);
  }

  /** Unregistering an id that was never registered still removes a
      subscriber: with one subscriber left, it stops the interval although a
      job is still registered, and that job is not called again by the interval. */
  lemma StrayUnregisterStopsInterval(s: Store, kept: string, stray: string, throwAt: Option<nat>)
    requires Valid(s) && s.subscribers == 1
    requires Get(s.jobs, kept).Some? && Get(s.jobs, stray).None?
    ensures var u := UnregisterJob(s, stray);
      && u.timerId.None?
      && Get(u.jobs, kept) == Get(s.jobs, kept)
      && Tick(u, throwAt).trace == u.trace
  {
  }

  /** Whether the immediate call threw changes nothing but the logged flag:
      the registry, the counter and the interval are the same either way. */
  lemma ImmediateThrowIsSwallowed(s: Store, id: string, fn: Action)
    ensures var ok, thrown := RegisterJob(s, id, fn, false), RegisterJob(s, id, fn, true);
      ok.(trace := thrown.trace) == thrown
  {
  }

  /** The end-to-end scenario: jobs A and B registered on a store whose
      interval is 1000 ms, then 3100 ms pass (three ticks) with no unregister;
      each job has been called 1 + 3 = 4 times. */
  lemma TwoJobsThreeTicks(a: Action, b: Action, ta: bool, tb: bool)
    ensures var s := Ticks(RegisterJob(RegisterJob(Init(Some(1000)), "A", a, ta), "B", b, tb), 3);
      && s.intervalMs == 1000
      && Invocations(s.trace, "A", a) == 4
      && Invocations(s.trace, "B", b) == 4
  {
    var s0 := Init(Some(1000));
    var s1 := RegisterJob(s0, "A", a, ta);
    var s2 := RegisterJob(s1, "B", b, tb);
    InvocationsAppend(s1.trace, [Call("B", b, Immediate, tb)], "A", a);
    InvocationsAppend(s0.trace, [Call("A", a, Immediate, ta)], "B", b);
    InvocationsAppend(s1.trace, [Call("B", b, Immediate, tb)], "B", b);
    assert Invocations(s2.trace, "A", a) == 1;
    assert Invocations(s2.trace, "B", b) == 1;
    TicksCallEachJob(s2, 3, "A", a);
    TicksCallEachJob(s2, 3, "B", b);
  }
}
