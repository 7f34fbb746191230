/**
 * What one tick of query-bench's main loop does (query-bench.go:64-88):
 * `numThreads` workers each walk every instance, and for each instance every
 * query template, substitute the instance into the template, send the query
 * for the tick's time window, log a failure and go on, and sleep once after
 * each instance.
 *
 * Workers are modelled one after the other, each with its own trace; no order
 * between the calls of different workers is claimed. The query executor
 * (`queryPrometheusRange`) is a parameter: it tells, for each call a worker
 * makes, whether that call failed and with what message.
 */
module Workload {
  import opened Wrappers
  import opened Strings
  import opened Durations

  /** The filter every template is written against; it does not follow the `-label` flag. */
  const Placeholder: string := "instance=\"host-0\""

  /** The filter that replaces the placeholder: `instance="<instance>"`. */
  function InstanceFilter(instance: string): string {
    "instance=\"" + instance + "\""
  }

  /** The query a template yields for one instance (query-bench.go:76). */
  function Substitute(template: string, instance: string): string {
    ReplaceAll(template, Placeholder, InstanceFilter(instance))
  }

  /** The time range of every query of one round: from `start` to `end`. */
  datatype Window = Window(start: int, end: int)

  /**
   * The window of a round that starts at `end`: its start is `end.Add(-range)`.
   * It covers the `range` before `end`, except for the minimum duration: its
   * `int64` negation wraps to itself, so the start is `end` minus 2^63 ns.
   */
  function RoundWindow(end: int, range: Int64): (w: Window)
    ensures w.end == end
    ensures range as int != MinInt64 ==> w.end - w.start == range as int
    ensures range as int == MinInt64 ==> w.start == end + MinInt64
  {
    Window(end + Wrap64(-(range as int)) as int, end)
  }

  /** What a worker does, in order: send a query for an instance, or sleep. */
  datatype Event = Query(instance: nat, query: string, window: Window) | Sleep

  /** One log line `Instance <instance> query failed: <detail>`. */
  datatype Failure = Failure(instance: nat, detail: string)

  /**
   * The executor's answer to the call of worker `w` for instance `i` and
   * template `k`: `None` for success, `Some(message)` for an error.
   */
  type Executor = (nat, nat, nat) -> Option<string>

  /** The queries for instance `i` and the first `k` templates, in template order. */
  function InstanceQueries(i: nat, instance: string, templates: seq<string>, w: Window, k: nat): seq<Event>
    requires k <= |templates|
  {
    if k == 0 then []
    else InstanceQueries(i, instance, templates, w, k - 1) + [Query(i, Substitute(templates[k - 1], instance), w)]
  }

  /** The events of a worker after the first `n` instances: each instance's queries, then a sleep. */
  function WalkPrefix(instances: seq<string>, templates: seq<string>, w: Window, n: nat): seq<Event>
    requires n <= |instances|
  {
    if n == 0 then []
    else WalkPrefix(instances, templates, w, n - 1)
         + InstanceQueries(n - 1, instances[n - 1], templates, w, |templates|) + [Sleep]
  }

  /** Everything one worker does in one round. */
  function Walk(instances: seq<string>, templates: seq<string>, w: Window): seq<Event> {
    WalkPrefix(instances, templates, w, |instances|)
  }

  /** The failures logged for instance `i` over its first `k` templates. */
  function InstanceFailures(worker: nat, i: nat, execute: Executor, k: nat): seq<Failure> {
    if k == 0 then []
    else
      InstanceFailures(worker, i, execute, k - 1) +
      match execute(worker, i, k - 1)
      case Some(e) => [Failure(i, e)]
      case None => []
  }

  /** The failures logged over the first `n` instances. */
  function FailuresPrefix(worker: nat, count: nat, execute: Executor, n: nat): seq<Failure> {
    if n == 0 then []
    else FailuresPrefix(worker, count, execute, n - 1) + InstanceFailures(worker, n - 1, execute, count)
  }

  /** The failure log of one worker in one round. */
  function WalkFailures(worker: nat, instances: seq<string>, templates: seq<string>, execute: Executor): seq<Failure> {
    FailuresPrefix(worker, |templates|, execute, |instances|)
  }

  /**
   * One worker's goroutine body (query-bench.go:73-83). The events do not
   * depend on `execute` at all: a failed query is only logged, and every
   * later query of the worker is still sent.
   */
  method RunWorker(worker: nat, instances: seq<string>, templates: seq<string>, w: Window, execute: Executor)
    returns (events: seq<Event>, failures: seq<Failure>)
    ensures events == Walk(instances, templates, w)
    ensures failures == WalkFailures(worker, instances, templates, execute)
  {
    events, failures := [], [];
    for i := 0 to |instances|
      invariant events == WalkPrefix(instances, templates, w, i)
      invariant failures == FailuresPrefix(worker, |templates|, execute, i)
    {
      var sent, logged := RunInstance(worker, i, instances[i], templates, w, execute);
      events := events + sent + [Sleep];
      failures := failures + logged;
    }
  }

  /**
   * The inner loop of a worker (query-bench.go:75-81): every template, in
   * order, with `instance` substituted, sent for the same window; a failure
   * is logged with the instance index and the loop goes on.
   */
  method RunInstance(worker: nat, i: nat, instance: string, templates: seq<string>, w: Window, execute: Executor)
    returns (sent: seq<Event>, logged: seq<Failure>)
    ensures sent == InstanceQueries(i, instance, templates, w, |templates|)
    ensures logged == InstanceFailures(worker, i, execute, |templates|)
  {
    sent, logged := [], [];
    for k := 0 to |templates|
      invariant sent == InstanceQueries(i, instance, templates, w, k)
      invariant logged == InstanceFailures(worker, i, execute, k)
    {
      var query := Substitute(templates[k], instance);
      sent := sent + [Query(i, query, w)];
      var err := execute(worker, i, k);
      if err.Some? {
        logged := logged + [Failure(i, err.value)];
      }
    }
  }

  /** What one worker left behind in one round. */
  datatype WorkerTrace = WorkerTrace(events: seq<Event>, failures: seq<Failure>)

  /**
   * One tick (query-bench.go:66-86): the window is computed once from `end`
   * and `range`, and worker after worker runs the full walk with it. Go's
   * `for i := 0; i < *numThreads; i++` starts no worker when `numThreads <= 0`.
   * The method returns when every worker has finished, like `wg.Wait()`.
   */
  method RunRound(numThreads: int, instances: seq<string>, templates: seq<string>, end: int, range: Int64, execute: Executor)
    returns (traces: seq<WorkerTrace>)
    ensures |traces| == if numThreads < 0 then 0 else numThreads
    ensures forall k :: 0 <= k < |traces| ==>
              traces[k] == WorkerTrace(Walk(instances, templates, RoundWindow(end, range)),
                                       WalkFailures(k, instances, templates, execute))
  {
    var w := RoundWindow(end, range);
    traces := [];
    var worker := 0;
    while worker < numThreads
      invariant worker == |traces| <= (if numThreads < 0 then 0 else numThreads)
      invariant forall k :: 0 <= k < |traces| ==>
                  traces[k] == WorkerTrace(Walk(instances, templates, w), WalkFailures(k, instances, templates, execute))
    {
      var events, failures := RunWorker(worker, instances, templates, w, execute);
      traces := traces + [WorkerTrace(events, failures)];
      worker := worker + 1;
    }
  }

  // ---------------------------------------------------------------------------
  // Substitution

  /** The placeholder is the filter for instance `host-0`, and only for it. */
  lemma InstanceFilterIsPlaceholderIff(instance: string)
    ensures InstanceFilter(instance) == Placeholder <==> instance == "host-0"
  {
    if InstanceFilter(instance) == Placeholder {
      assert InstanceFilter(instance)[10..|instance| + 10] == instance;
      assert Placeholder[10..16] == "host-0";
    }
  }

  /**
   * A template comes back unchanged exactly when it does not mention the
   * placeholder or the instance is `host-0` itself.
   */
  lemma SubstituteUnchangedIff(template: string, instance: string)
    ensures Substitute(template, instance) == template <==>
            (instance == "host-0" || !Occurs(template, Placeholder))
  {
    InstanceFilterIsPlaceholderIff(instance);
    ReplaceAllUnchangedIff(template, Placeholder, InstanceFilter(instance));
  }

  /** The placeholder itself becomes the instance's filter: `host-42` gives `instance="host-42"`. */
  lemma SubstitutePlaceholder(instance: string)
    ensures Substitute(Placeholder, instance) == InstanceFilter(instance)
  {
    assert Placeholder[..|Placeholder|] == Placeholder;
    assert Placeholder[|Placeholder|..] == [];
  }

  /** The template `{instance="host-0"}` for instance `x` becomes `{instance="x"}`. */
  lemma SubstituteBraced(instance: string)
    ensures Substitute("{" + Placeholder + "}", instance) == "{" + InstanceFilter(instance) + "}"
  {
    var s := "{" + Placeholder + "}";
    var rep := InstanceFilter(instance);
    assert s[..|Placeholder|] != Placeholder by { assert s[0] == '{' && Placeholder[0] == 'i'; }
    assert s[1..] == Placeholder + "}";
    assert s[1..][..|Placeholder|] == Placeholder;
    assert s[1..][|Placeholder|..] == "}";
    assert ReplaceAll(s[1..], Placeholder, rep) == rep + "}";
  }

  // ---------------------------------------------------------------------------
  // The shape of a worker's walk

  lemma {:induction false} InstanceQueriesAt(i: nat, instance: string, templates: seq<string>, w: Window, k: nat, j: nat)
    requires j < k <= |templates|
    ensures |InstanceQueries(i, instance, templates, w, k)| == k
    ensures InstanceQueries(i, instance, templates, w, k)[j] == Query(i, Substitute(templates[j], instance), w)
  {
    if j < k - 1 {
      InstanceQueriesAt(i, instance, templates, w, k - 1, j);
    } else {
      InstanceQueriesLength(i, instance, templates, w, k - 1);
    }
  }

  lemma {:induction false} InstanceQueriesLength(i: nat, instance: string, templates: seq<string>, w: Window, k: nat)
    requires k <= |templates|
    ensures |InstanceQueries(i, instance, templates, w, k)| == k
  {
    if k > 0 {
      InstanceQueriesLength(i, instance, templates, w, k - 1);
    }
  }

  lemma {:induction false} WalkPrefixLength(instances: seq<string>, templates: seq<string>, w: Window, n: nat)
    requires n <= |instances|
    ensures |WalkPrefix(instances, templates, w, n)| == n * (|templates| + 1)
  {
    if n > 0 {
      WalkPrefixLength(instances, templates, w, n - 1);
      InstanceQueriesLength(n - 1, instances[n - 1], templates, w, |templates|);
      MulStep(n, |templates| + 1);
    }
  }

  /** The walk over the first `j` instances begins the walk over the first `n`. */
  lemma {:induction false} WalkPrefixIsPrefix(instances: seq<string>, templates: seq<string>, w: Window, j: nat, n: nat)
    requires j <= n <= |instances|
    ensures |WalkPrefix(instances, templates, w, j)| <= |WalkPrefix(instances, templates, w, n)|
    ensures WalkPrefix(instances, templates, w, n)[..|WalkPrefix(instances, templates, w, j)|] ==
            WalkPrefix(instances, templates, w, j)
  {
    if j < n {
      WalkPrefixIsPrefix(instances, templates, w, j, n - 1);
      var a := WalkPrefix(instances, templates, w, n - 1);
      var b := InstanceQueries(n - 1, instances[n - 1], templates, w, |templates|) + [Sleep];
      assert WalkPrefix(instances, templates, w, n) == a + b;
      assert (a + b)[..|a|] == a;
    }
  }

  /** Block `i` of a worker's walk, after the walk over the first `i` instances: its queries, then a sleep. */
  lemma WalkBlock(instances: seq<string>, templates: seq<string>, w: Window, i: nat)
    requires i < |instances|
    ensures |WalkPrefix(instances, templates, w, i)| + |templates| + 1 <= |Walk(instances, templates, w)|
    ensures Walk(instances, templates, w)[|WalkPrefix(instances, templates, w, i)|..|WalkPrefix(instances, templates, w, i)| + |templates| + 1] ==
            InstanceQueries(i, instances[i], templates, w, |templates|) + [Sleep]
  {
    var walk := Walk(instances, templates, w);
    var block := InstanceQueries(i, instances[i], templates, w, |templates|) + [Sleep];
    var before := WalkPrefix(instances, templates, w, i);
    var upto := WalkPrefix(instances, templates, w, i + 1);
    InstanceQueriesLength(i, instances[i], templates, w, |templates|);
    WalkPrefixIsPrefix(instances, templates, w, i + 1, |instances|);
    assert upto == before + block;
    assert walk[..|upto|] == upto;
    assert walk[|before|..|upto|] == upto[|before|..] == block;
  }

  /**
   * Instance-major, template-minor order: a worker's walk is `|instances|`
   * blocks of `|templates| + 1` events; block `i` holds the query for template
   * `k` with instance `i` substituted at offset `k`, and a sleep at offset
   * `|templates|`.
   */
  lemma WalkAt(instances: seq<string>, templates: seq<string>, w: Window, i: nat, k: nat)
    requires i < |instances| && k <= |templates|
    ensures |Walk(instances, templates, w)| == |instances| * (|templates| + 1)
    ensures i * (|templates| + 1) + k < |Walk(instances, templates, w)|
    ensures Walk(instances, templates, w)[i * (|templates| + 1) + k] ==
            if k < |templates| then Query(i, Substitute(templates[k], instances[i]), w) else Sleep
  {
    var walk := Walk(instances, templates, w);
    var queries := InstanceQueries(i, instances[i], templates, w, |templates|);
    var offset := i * (|templates| + 1);
    WalkPrefixLength(instances, templates, w, |instances|);
    WalkPrefixLength(instances, templates, w, i);
    WalkBlock(instances, templates, w, i);
    InstanceQueriesLength(i, instances[i], templates, w, |templates|);
    assert walk[offset + k] == walk[offset..offset + |templates| + 1][k] == (queries + [Sleep])[k];
    if k < |templates| {
      InstanceQueriesAt(i, instances[i], templates, w, |templates|, k);
    }
  }

  /** The number of sleeps among `events`. */
  function Sleeps(events: seq<Event>): nat {
    if events == [] then 0 else (if events[0].Sleep? then 1 else 0) + Sleeps(events[1..])
  }

  /** The queries among `events`, as calls of worker `worker`. */
  datatype Call = Call(worker: nat, instance: nat, query: string, window: Window)

  function CallsOf(worker: nat, events: seq<Event>): seq<Call> {
    if events == [] then []
    else
      (match events[0]
       case Query(i, q, w) => [Call(worker, i, q, w)]
       case Sleep => []) + CallsOf(worker, events[1..])
  }

  /** Every call in `calls` is made by `worker`, for an instance below `bound`, with window `w`. */
  predicate CallsWithin(calls: seq<Call>, worker: nat, bound: nat, w: Window) {
    forall j :: 0 <= j < |calls| ==> calls[j].worker == worker && calls[j].instance < bound && calls[j].window == w
  }

  lemma CallsWithinJoin(a: seq<Call>, b: seq<Call>, worker: nat, boundA: nat, bound: nat, w: Window)
    requires CallsWithin(a, worker, boundA, w) && CallsWithin(b, worker, bound, w) && boundA <= bound
    ensures CallsWithin(a + b, worker, bound, w)
  {
    forall j | 0 <= j < |a + b|
      ensures (a + b)[j].worker == worker && (a + b)[j].instance < bound && (a + b)[j].window == w
    {
      if j >= |a| { assert (a + b)[j] == b[j - |a|]; }
    }
  }

  lemma {:induction false} CallsOfAppend(worker: nat, a: seq<Event>, b: seq<Event>)
    ensures CallsOf(worker, a + b) == CallsOf(worker, a) + CallsOf(worker, b)
    ensures Sleeps(a + b) == Sleeps(a) + Sleeps(b)
  {
    CallsOfJoin(worker, a, b);
    SleepsJoin(a, b);
  }

  lemma {:induction false} CallsOfJoin(worker: nat, a: seq<Event>, b: seq<Event>)
    ensures CallsOf(worker, a + b) == CallsOf(worker, a) + CallsOf(worker, b)
    decreases |a|
  {
    if a == [] {
      assert a + b == b;
    } else {
      assert (a + b)[0] == a[0];
      assert (a + b)[1..] == a[1..] + b;
      CallsOfJoin(worker, a[1..], b);
    }
  }

  lemma {:induction false} SleepsJoin(a: seq<Event>, b: seq<Event>)
    ensures Sleeps(a + b) == Sleeps(a) + Sleeps(b)
    decreases |a|
  {
    if a == [] {
      assert a + b == b;
    } else {
      assert (a + b)[0] == a[0];
      assert (a + b)[1..] == a[1..] + b;
      SleepsJoin(a[1..], b);
    }
  }

  lemma {:induction false} InstanceQueriesCalls(worker: nat, i: nat, instance: string, templates: seq<string>, w: Window, k: nat)
    requires k <= |templates|
    ensures |CallsOf(worker, InstanceQueries(i, instance, templates, w, k))| == k
    ensures Sleeps(InstanceQueries(i, instance, templates, w, k)) == 0
    ensures CallsWithin(CallsOf(worker, InstanceQueries(i, instance, templates, w, k)), worker, i + 1, w)
  {
    if k > 0 {
      var prev := InstanceQueries(i, instance, templates, w, k - 1);
      var q := Query(i, Substitute(templates[k - 1], instance), w);
      InstanceQueriesCalls(worker, i, instance, templates, w, k - 1);
      CallsOfAppend(worker, prev, [q]);
      assert [q][1..] == [];
      assert CallsOf(worker, [q]) == [Call(worker, i, q.query, w)];
      CallsWithinJoin(CallsOf(worker, prev), CallsOf(worker, [q]), worker, i + 1, i + 1, w);
    }
  }

  /** Appending one instance's block and its sleep adds the block's calls and one sleep. */
  lemma AppendBlock(worker: nat, prefix: seq<Event>, block: seq<Event>)
    ensures CallsOf(worker, prefix + block + [Sleep]) == CallsOf(worker, prefix) + CallsOf(worker, block)
    ensures Sleeps(prefix + block + [Sleep]) == Sleeps(prefix) + Sleeps(block) + 1
  {
    CallsOfAppend(worker, prefix, block);
    CallsOfAppend(worker, prefix + block, [Sleep]);
    assert [Sleep][1..] == [];
    assert CallsOf(worker, [Sleep]) == [] && Sleeps([Sleep]) == 1;
  }

  lemma {:induction false} WalkPrefixCallCount(worker: nat, instances: seq<string>, templates: seq<string>, w: Window, n: nat)
    requires n <= |instances|
    ensures |CallsOf(worker, WalkPrefix(instances, templates, w, n))| == n * |templates|
  {
    if n > 0 {
      var prefix := WalkPrefix(instances, templates, w, n - 1);
      var block := InstanceQueries(n - 1, instances[n - 1], templates, w, |templates|);
      WalkPrefixCallCount(worker, instances, templates, w, n - 1);
      InstanceQueriesCalls(worker, n - 1, instances[n - 1], templates, w, |templates|);
      AppendBlock(worker, prefix, block);
      MulStep(n, |templates|);
    }
  }

  lemma {:induction false} WalkPrefixSleeps(instances: seq<string>, templates: seq<string>, w: Window, n: nat)
    requires n <= |instances|
    ensures Sleeps(WalkPrefix(instances, templates, w, n)) == n
  {
    if n > 0 {
      var prefix := WalkPrefix(instances, templates, w, n - 1);
      var block := InstanceQueries(n - 1, instances[n - 1], templates, w, |templates|);
      WalkPrefixSleeps(instances, templates, w, n - 1);
      InstanceQueriesCalls(0, n - 1, instances[n - 1], templates, w, |templates|);
      AppendBlock(0, prefix, block);
    }
  }

  lemma MulStep(n: int, t: int)
    ensures (n - 1) * t + t == n * t
  {
  }

  lemma {:induction false} WalkPrefixCallsFit(worker: nat, instances: seq<string>, templates: seq<string>, w: Window, n: nat)
    requires n <= |instances|
    ensures CallsWithin(CallsOf(worker, WalkPrefix(instances, templates, w, n)), worker, n, w)
  {
    if n > 0 {
      var prefix := WalkPrefix(instances, templates, w, n - 1);
      var block := InstanceQueries(n - 1, instances[n - 1], templates, w, |templates|);
      var calls, before, added := CallsOf(worker, WalkPrefix(instances, templates, w, n)),
                                  CallsOf(worker, prefix), CallsOf(worker, block);
      WalkPrefixCallsFit(worker, instances, templates, w, n - 1);
      InstanceQueriesCalls(worker, n - 1, instances[n - 1], templates, w, |templates|);
      AppendBlock(worker, prefix, block);
      assert calls == before + added;
      CallsWithinJoin(before, added, worker, n - 1, n, w);
    }
  }

  /**
   * One worker sends exactly `|instances| * |templates|` queries, all for the
   * round's window, and sleeps exactly `|instances|` times.
   */
  lemma WalkCounts(worker: nat, instances: seq<string>, templates: seq<string>, w: Window)
    ensures |CallsOf(worker, Walk(instances, templates, w))| == |instances| * |templates|
    ensures Sleeps(Walk(instances, templates, w)) == |instances|
    ensures CallsWithin(CallsOf(worker, Walk(instances, templates, w)), worker, |instances|, w)
  {
    WalkPrefixCallCount(worker, instances, templates, w, |instances|);
    WalkPrefixSleeps(instances, templates, w, |instances|);
    WalkPrefixCallsFit(worker, instances, templates, w, |instances|);
  }

  // ---------------------------------------------------------------------------
  // Failures

  /** The call a worker makes for instance `instance` and template index `template`. */
  datatype Slot = Slot(instance: nat, template: nat)

  /** `a` comes before `b` in a worker's walk: instance-major, template-minor. */
  predicate Before(a: Slot, b: Slot) {
    a.instance < b.instance || (a.instance == b.instance && a.template < b.template)
  }

  /** The calls for instance `i` among its first `k` templates that failed, in template order. */
  function InstanceSlots(worker: nat, i: nat, execute: Executor, k: nat): seq<Slot> {
    if k == 0 then []
    else InstanceSlots(worker, i, execute, k - 1) + (if execute(worker, i, k - 1).Some? then [Slot(i, k - 1)] else [])
  }

  /** The failed calls over the first `n` instances, in call order. */
  function SlotsPrefix(worker: nat, count: nat, execute: Executor, n: nat): seq<Slot> {
    if n == 0 then []
    else SlotsPrefix(worker, count, execute, n - 1) + InstanceSlots(worker, n - 1, execute, count)
  }

  /** The log line for call `s`: its instance index and the executor's message. */
  function Line(worker: nat, execute: Executor, s: Slot): Failure {
    Failure(s.instance, match execute(worker, s.instance, s.template) case Some(m) => m case None => "")
  }

  /** `log` has one line per call of `slots`, in the same order. */
  predicate Describes(log: seq<Failure>, slots: seq<Slot>, worker: nat, execute: Executor) {
    |log| == |slots| && forall j :: 0 <= j < |log| ==> log[j] == Line(worker, execute, slots[j])
  }

  /** Every call of `slots` comes strictly before the next one. */
  predicate Ascending(slots: seq<Slot>) {
    forall j, k :: 0 <= j < k < |slots| ==> Before(slots[j], slots[k])
  }

  lemma DescribesJoin(a: seq<Failure>, sa: seq<Slot>, b: seq<Failure>, sb: seq<Slot>, worker: nat, execute: Executor)
    requires Describes(a, sa, worker, execute) && Describes(b, sb, worker, execute)
    ensures Describes(a + b, sa + sb, worker, execute)
  {
    forall j | 0 <= j < |a + b| ensures (a + b)[j] == Line(worker, execute, (sa + sb)[j]) {
      if j < |a| {
        assert (a + b)[j] == a[j] && (sa + sb)[j] == sa[j];
      } else {
        assert (a + b)[j] == b[j - |a|] && (sa + sb)[j] == sb[j - |a|];
      }
    }
  }

  lemma AscendingJoin(a: seq<Slot>, b: seq<Slot>)
    requires Ascending(a) && Ascending(b)
    requires forall j, k :: 0 <= j < |a| && 0 <= k < |b| ==> Before(a[j], b[k])
    ensures Ascending(a + b)
  {
    forall j, k | 0 <= j < k < |a + b| ensures Before((a + b)[j], (a + b)[k]) {
      if k < |a| {
        assert (a + b)[j] == a[j] && (a + b)[k] == a[k];
      } else if j < |a| {
        assert (a + b)[j] == a[j] && (a + b)[k] == b[k - |a|];
      } else {
        assert (a + b)[j] == b[j - |a|] && (a + b)[k] == b[k - |a|];
      }
    }
  }

  /** The failures logged for instance `i` are the lines of its failed calls, in order. */
  lemma {:induction false} InstanceFailuresDescribed(worker: nat, i: nat, execute: Executor, k: nat)
    ensures Describes(InstanceFailures(worker, i, execute, k), InstanceSlots(worker, i, execute, k), worker, execute)
  {
    if k > 0 {
      var log, slots := InstanceFailures(worker, i, execute, k - 1), InstanceSlots(worker, i, execute, k - 1);
      InstanceFailuresDescribed(worker, i, execute, k - 1);
      match execute(worker, i, k - 1)
      case Some(e) =>
        assert Line(worker, execute, Slot(i, k - 1)) == Failure(i, e);
        DescribesJoin(log, slots, [Failure(i, e)], [Slot(i, k - 1)], worker, execute);
      case None =>
        assert log + [] == log && slots + [] == slots;
    }
  }

  lemma {:induction false} FailuresPrefixDescribed(worker: nat, count: nat, execute: Executor, n: nat)
    ensures Describes(FailuresPrefix(worker, count, execute, n), SlotsPrefix(worker, count, execute, n), worker, execute)
  {
    if n > 0 {
      FailuresPrefixDescribed(worker, count, execute, n - 1);
      InstanceFailuresDescribed(worker, n - 1, execute, count);
      DescribesJoin(FailuresPrefix(worker, count, execute, n - 1), SlotsPrefix(worker, count, execute, n - 1),
                    InstanceFailures(worker, n - 1, execute, count), InstanceSlots(worker, n - 1, execute, count),
                    worker, execute);
    }
  }

  /** An instance's failed calls are its calls whose executor answer is an error, in template order. */
  lemma {:induction false} InstanceSlotsExact(worker: nat, i: nat, execute: Executor, k: nat)
    ensures |InstanceSlots(worker, i, execute, k)| <= k
    ensures Ascending(InstanceSlots(worker, i, execute, k))
    ensures forall s :: s in InstanceSlots(worker, i, execute, k) <==>
              s.instance == i && s.template < k && execute(worker, i, s.template).Some?
  {
    if k > 0 {
      var prev := InstanceSlots(worker, i, execute, k - 1);
      InstanceSlotsExact(worker, i, execute, k - 1);
      if execute(worker, i, k - 1).Some? {
        var last := [Slot(i, k - 1)];
        forall j, l | 0 <= j < |prev| && 0 <= l < |last| ensures Before(prev[j], last[l]) {
          assert prev[j] in prev;
        }
        AscendingJoin(prev, last);
      } else {
        assert prev + [] == prev;
      }
    }
  }

  /** Over the first `n` instances, the failed calls are exactly the erroring calls. */
  lemma {:induction false} SlotsPrefixMembers(worker: nat, count: nat, execute: Executor, n: nat)
    ensures |SlotsPrefix(worker, count, execute, n)| <= n * count
    ensures forall s :: s in SlotsPrefix(worker, count, execute, n) <==>
              s.instance < n && s.template < count && execute(worker, s.instance, s.template).Some?
  {
    if n > 0 {
      var before, added := SlotsPrefix(worker, count, execute, n - 1), InstanceSlots(worker, n - 1, execute, count);
      SlotsPrefixMembers(worker, count, execute, n - 1);
      InstanceSlotsExact(worker, n - 1, execute, count);
      assert SlotsPrefix(worker, count, execute, n) == before + added;
      MulStep(n, count);
    }
  }

  /** Every failed call over the first `n` instances is for an instance below `n`. */
  predicate InstancesBelow(slots: seq<Slot>, n: nat) {
    forall j :: 0 <= j < |slots| ==> slots[j].instance < n
  }

  lemma {:induction false} InstanceSlotsOf(worker: nat, i: nat, execute: Executor, k: nat)
    ensures forall j :: 0 <= j < |InstanceSlots(worker, i, execute, k)| ==> InstanceSlots(worker, i, execute, k)[j].instance == i
  {
    if k > 0 {
      InstanceSlotsOf(worker, i, execute, k - 1);
    }
  }

  lemma {:induction false} SlotsPrefixBelow(worker: nat, count: nat, execute: Executor, n: nat)
    ensures InstancesBelow(SlotsPrefix(worker, count, execute, n), n)
  {
    if n > 0 {
      var before, added := SlotsPrefix(worker, count, execute, n - 1), InstanceSlots(worker, n - 1, execute, count);
      SlotsPrefixBelow(worker, count, execute, n - 1);
      InstanceSlotsOf(worker, n - 1, execute, count);
      var all: seq<Slot> := before + added;
      assert SlotsPrefix(worker, count, execute, n) == all;
      forall j | 0 <= j < |all| ensures all[j].instance < n {
        if j < |before| { assert all[j] == before[j]; } else { assert all[j] == added[j - |before|]; }
      }
    }
  }

  /** Over the first `n` instances, the failed calls come in call order. */
  lemma {:induction false} SlotsPrefixAscending(worker: nat, count: nat, execute: Executor, n: nat)
    ensures Ascending(SlotsPrefix(worker, count, execute, n))
  {
    if n > 0 {
      var before, added := SlotsPrefix(worker, count, execute, n - 1), InstanceSlots(worker, n - 1, execute, count);
      SlotsPrefixAscending(worker, count, execute, n - 1);
      SlotsPrefixBelow(worker, count, execute, n - 1);
      InstanceSlotsOf(worker, n - 1, execute, count);
      InstanceSlotsExact(worker, n - 1, execute, count);
      forall j, l | 0 <= j < |before| && 0 <= l < |added| ensures Before(before[j], added[l]) {
        assert before[j].instance < n - 1 && added[l].instance == n - 1;
      }
      AscendingJoin(before, added);
    }
  }

  /**
   * A worker's failure log, in call order, has exactly one line per failed
   * call, naming the call's instance index and the executor's message: it is
   * described by a list of calls that is strictly increasing in the walk's
   * order and holds exactly the calls the executor answered with an error.
   */
  lemma WalkFailuresExact(worker: nat, instances: seq<string>, templates: seq<string>, execute: Executor)
    returns (slots: seq<Slot>)
    ensures Describes(WalkFailures(worker, instances, templates, execute), slots, worker, execute)
    ensures Ascending(slots)
    ensures forall s :: s in slots <==>
              s.instance < |instances| && s.template < |templates| && execute(worker, s.instance, s.template).Some?
    ensures |WalkFailures(worker, instances, templates, execute)| <= |instances| * |templates|
  {
    slots := SlotsPrefix(worker, |templates|, execute, |instances|);
    FailuresPrefixDescribed(worker, |templates|, execute, |instances|);
    SlotsPrefixMembers(worker, |templates|, execute, |instances|);
    SlotsPrefixAscending(worker, |templates|, execute, |instances|);
  }

  /**
   * One instance, two templates, and only the first call fails with `x`:
   * the log is that one line, not one line per template.
   */
  lemma OneFailedCallOneLine(worker: nat, execute: Executor, t0: string, t1: string)
    requires execute(worker, 0, 0) == Some("x") && execute(worker, 0, 1) == None
    ensures WalkFailures(worker, ["h"], [t0, t1], execute) == [Failure(0, "x")]
  {
    assert InstanceFailures(worker, 0, execute, 1) == [Failure(0, "x")];
    assert InstanceFailures(worker, 0, execute, 2) == [Failure(0, "x")];
    assert |[t0, t1]| == 2 && |["h"]| == 1;
    assert FailuresPrefix(worker, 2, execute, 1) == [] + InstanceFailures(worker, 0, execute, 2);
  }

  /**
   * In the log, each line's message is the one the executor returned for
   * its call: a line never carries a made-up message.
   */
  lemma LineOfFailedCall(worker: nat, execute: Executor, s: Slot)
    requires execute(worker, s.instance, s.template).Some?
    ensures Line(worker, execute, s) == Failure(s.instance, execute(worker, s.instance, s.template).value)
  {
  }

  // ---------------------------------------------------------------------------
  // A whole round

  /** All calls of a round, worker after worker. */
  function RoundCalls(traces: seq<WorkerTrace>): seq<Call> {
    if traces == [] then []
    else RoundCalls(traces[..|traces| - 1]) + CallsOf(|traces| - 1, traces[|traces| - 1].events)
  }

  /** All sleeps of a round. */
  function RoundSleeps(traces: seq<WorkerTrace>): nat {
    if traces == [] then 0
    else RoundSleeps(traces[..|traces| - 1]) + Sleeps(traces[|traces| - 1].events)
  }

  /**
   * A round whose workers each ran the full walk with window `w` sends
   * `workers * |instances| * |templates|` queries, every one for `w`, and
   * sleeps `workers * |instances|` times.
   */
  lemma {:induction false} RoundCounts(traces: seq<WorkerTrace>, instances: seq<string>, templates: seq<string>, w: Window)
    requires forall k :: 0 <= k < |traces| ==> traces[k].events == Walk(instances, templates, w)
    ensures |RoundCalls(traces)| == |traces| * (|instances| * |templates|)
    ensures RoundSleeps(traces) == |traces| * |instances|
    ensures forall c :: c in RoundCalls(traces) ==>
              c.window == w && c.worker < |traces| && c.instance < |instances|
  {
    if traces != [] {
      var n := |traces| - 1;
      var init := traces[..n];
      var walk := Walk(instances, templates, w);
      assert forall k :: 0 <= k < |init| ==> init[k] == traces[k];
      RoundCounts(init, instances, templates, w);
      WalkCounts(n, instances, templates, w);
      assert traces[n].events == walk;
      assert RoundCalls(traces) == RoundCalls(init) + CallsOf(n, walk);
      assert CallsWithin(CallsOf(n, walk), n, |instances|, w);
      assert RoundSleeps(traces) == RoundSleeps(init) + Sleeps(walk);
      MulStep(|traces|, |instances| * |templates|);
      MulStep(|traces|, |instances|);
    }
  }

  /**
   * The scenario of one worker, instances `a` and `b` and the single template
   * `{instance="host-0"}`: the queries `{instance="a"}` and `{instance="b"}`
   * in that order, both for the round's window, each followed by a sleep.
   */
  lemma TwoInstancesOneTemplate(w: Window)
    ensures Walk(["a", "b"], ["{" + Placeholder + "}"], w) ==
            [Query(0, "{instance=\"a\"}", w), Sleep, Query(1, "{instance=\"b\"}", w), Sleep]
  {
    var templates := ["{" + Placeholder + "}"];
    SubstituteBraced("a");
    SubstituteBraced("b");
    assert "{" + InstanceFilter("a") + "}" == "{instance=\"a\"}";
    assert "{" + InstanceFilter("b") + "}" == "{instance=\"b\"}";
    assert InstanceQueries(0, "a", templates, w, 1) == [Query(0, "{instance=\"a\"}", w)];
    assert InstanceQueries(1, "b", templates, w, 1) == [Query(1, "{instance=\"b\"}", w)];
    assert WalkPrefix(["a", "b"], templates, w, 1) == [Query(0, "{instance=\"a\"}", w), Sleep];
  }
}
