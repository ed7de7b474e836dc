/** A core's whole loop: passes and timers together, over any run with an unchanging forest.  */
module CoreLoops {
  import opened Arithmetic
  import opened Forests
  import opened MoonModules
  import opened ModuleManagers
  import opened Schedulers

  /** Entries of a hook, each with the true time of its pass. */
  type Log = seq<(nat, MoonModule)>

  ghost function Stamped(t: nat, ms: seq<MoonModule>): (l: Log)
    ensures |l| == |ms| && forall i :: 0 <= i < |l| ==> l[i] == (t, ms[i])
  {
    seq(|ms|, i requires 0 <= i < |ms| => (t, ms[i]))
  }

  /** The log of a hook that runs at the given times over the same modules. */
  ghost function LogOf(times: seq<nat>, ms: seq<MoonModule>): Log {
    if times == [] then [] else LogOf(times[..|times| - 1], ms) + Stamped(times[|times| - 1], ms)
  }

  lemma LogNext(times: seq<nat>, t: nat, ms: seq<MoonModule>)
    ensures LogOf(times + [t], ms) == LogOf(times, ms) + Stamped(t, ms)
  {
    assert (times + [t])[..|times|] == times;
  }

  // ---- How often and when a module runs a hook ----

  lemma {:induction false} StampedCount(t: nat, ms: seq<MoonModule>, u: nat, m: MoonModule)
    ensures multiset(Stamped(t, ms))[(u, m)] == if t == u then multiset(ms)[m] else 0
  {
    if ms == [] {
      assert Stamped(t, ms) == [];
    } else {
      var front, last := ms[..|ms| - 1], ms[|ms| - 1];
      StampedCount(t, front, u, m);
      assert ms == front + [last];
      assert Stamped(t, ms) == Stamped(t, front) + [(t, last)];
    }
  }

  ghost predicate Rising(times: seq<nat>) {
    forall i, j :: 0 <= i < j < |times| ==> times[i] < times[j]
  }

  lemma RisingOrder(times: seq<nat>, a: nat, b: nat)
    requires Rising(times) && a < |times| && b < |times| && times[a] < times[b]
    ensures a < b
  {
  }

  /** A module is in the log as often per run time as in the pass, and at no other time. */
  lemma {:induction false} LogCount(times: seq<nat>, ms: seq<MoonModule>, u: nat, m: MoonModule)
    requires Rising(times)
    ensures multiset(LogOf(times, ms))[(u, m)] == if u in times then multiset(ms)[m] else 0
  {
    if times != [] {
      var front, t := times[..|times| - 1], times[|times| - 1];
      LogCount(front, ms, u, m);
      StampedCount(t, ms, u, m);
      assert times == front + [t];
      assert t !in front;
    }
  }

  /** Entries of a log at different times are a period apart. */
  ghost predicate Spaced(log: Log, period: nat) {
    forall i, j :: 0 <= i < |log| && 0 <= j < |log| && log[i].0 < log[j].0 ==> log[j].0 - log[i].0 >= period
  }

  lemma {:induction false} LogTimes(times: seq<nat>, ms: seq<MoonModule>, i: nat)
    requires i < |LogOf(times, ms)|
    ensures LogOf(times, ms)[i].0 in times
  {
    var front := times[..|times| - 1];
    if i < |LogOf(front, ms)| {
      LogTimes(front, ms, i);
    }
  }

  lemma {:induction false} ApartAll(times: seq<nat>, start: nat, period: nat, i: nat, j: nat)
    requires Apart(times, start, period) && i < j < |times|
    ensures times[j] - times[i] >= period
    decreases j
  {
    if i + 1 < j {
      ApartAll(times, start, period, i, j - 1);
    }
  }

  lemma ApartRises(times: seq<nat>, start: nat, period: nat)
    requires Apart(times, start, period) && period > 0
    ensures Rising(times)
  {
    forall i, j | 0 <= i < j < |times| ensures times[i] < times[j] {
      ApartAll(times, start, period, i, j);
    }
  }

  lemma LogSpaced(times: seq<nat>, start: nat, period: nat, ms: seq<MoonModule>)
    requires Apart(times, start, period) && period > 0
    ensures Spaced(LogOf(times, ms), period)
  {
    ApartRises(times, start, period);
    var log := LogOf(times, ms);
    forall i, j | 0 <= i < |log| && 0 <= j < |log| && log[i].0 < log[j].0 ensures log[j].0 - log[i].0 >= period {
      LogTimes(times, ms, i);
      LogTimes(times, ms, j);
      var a :| 0 <= a < |times| && times[a] == log[i].0;
      var b :| 0 <= b < |times| && times[b] == log[j].0;
      RisingOrder(times, a, b);
      ApartAll(times, start, period, a, b);
    }
  }

  /** What a run promises of one slow hook: it runs at the firing times of its period, in each of
      them once per module of the core on the module's ancestor chain, and its runs are at least
      the period apart in true time. */
  ghost predicate HookRuns(f: Forest<MoonModule>, core: nat, times: seq<nat>, start: nat, period: nat, log: Log) {
    && (forall u: nat, m :: m in Pre(f) ==>
          multiset(log)[(u, m)] == if u in Firings(times, start, period) then OnCore(Chain(f, m), core) else 0)
    && Spaced(log, period)
  }

  lemma LogIsHookRuns(f: Forest<MoonModule>, core: nat, times: seq<nat>, start: nat, period: nat, log: Log)
    requires Distinct(f) && Ascending(times, start) && period > 0
    requires log == LogOf(Firings(times, start, period), Entered(f, Pre(f), core))
    ensures HookRuns(f, core, times, start, period, log)
  {
    var fired, ms := Firings(times, start, period), Entered(f, Pre(f), core);
    FiringsApart(times, start, period);
    ApartRises(fired, start, period);
    LogSpaced(fired, start, period, ms);
    forall u: nat, m | m in Pre(f)
      ensures multiset(log)[(u, m)] == if u in fired then OnCore(Chain(f, m), core) else 0
    {
      LogCount(fired, ms, u, m);
      OwnerInTree(f, m);
      EntriesPerPass(f, core, m);
    }
  }

  // ---- The loop ----

  /** One hook between two passes: its log so far, and its timer. */
  ghost predicate Running(times: seq<nat>, start: nat, period: nat, i: nat, fired: seq<nat>, last: nat, timer: nat,
                          ms: seq<MoonModule>, log: Log) {
    timer < WORD && OnSchedule(times, start, period, i, fired, last, timer) && log == LogOf(fired, ms)
  }

  lemma RunningStart(times: seq<nat>, start: nat, period: nat, ms: seq<MoonModule>)
    ensures Running(times, start, period, 0, [], start, start % WORD, ms, [])
  {
    ScheduleBegins(times, start, period);
  }

  lemma RunningStep(times: seq<nat>, start: nat, period: nat, i: nat, fired: seq<nat>, last: nat, timer: nat,
                    ms: seq<MoonModule>, log: Log)
    requires Running(times, start, period, i, fired, last, timer, ms, log) && i < |times|
    ensures var due := Elapsed(times[i] % WORD, timer) >= period;
            Running(times, start, period, i + 1, if due then fired + [times[i]] else fired,
                    if due then times[i] else last, if due then times[i] % WORD else timer, ms,
                    log + Stamped(times[i], When(due, ms)))
  {
    hide OnSchedule;
    ScheduleStep(times, start, period, i, fired, last, timer);
    LogNext(fired, times[i], ms);
    if Elapsed(times[i] % WORD, timer) < period {
      assert log + Stamped(times[i], []) == log;
    }
  }

  lemma RunningEnd(f: Forest<MoonModule>, core: nat, times: seq<nat>, start: nat, period: nat, fired: seq<nat>, last: nat,
                   timer: nat, log: Log)
    requires Distinct(f) && Ascending(times, start) && period > 0
    requires Running(times, start, period, |times|, fired, last, timer, Entered(f, Pre(f), core), log)
    ensures HookRuns(f, core, times, start, period, log)
  {
    hide HookRuns;
    ScheduleEnds(times, start, period, fired, last, timer);
    LogIsHookRuns(f, core, times, start, period, log);
  }

  /** The loop of a core. Its passes read the clock at the true times `times`; the timers start at
      the true time `start`. The logs say which modules ran each slow hook, and when. */
  method CoreLoop(manager: ModuleManager, core: nat, times: seq<nat>, start: nat)
    returns (log20ms: Log, log1s: Log, log10s: Log)
    requires manager.Valid() && Ascending(times, start)
    modifies set m | m in manager.modules :: m`tickCount
    ensures manager.Valid()
    ensures forall m :: m in manager.modules ==>
              m.tickCount == old(m.tickCount) + |times| * OnCore(Chain(manager.forest, m), core)
    ensures HookRuns(manager.forest, core, times, start, 20, log20ms)
    ensures HookRuns(manager.forest, core, times, start, 1000, log1s)
    ensures HookRuns(manager.forest, core, times, start, 10000, log10s)
  {
    hide OnCore, Chain, Running, HookRuns, Elapsed, When;
    log20ms, log1s, log10s := [], [], [];
    ghost var f, ms := manager.forest, Entered(manager.forest, manager.modules, core);
    var timers := new CoreTimers(start % WORD);
    ghost var f20ms, f1s, f10s: seq<nat> := [], [], [];
    ghost var t20ms, t1s, t10s := start, start, start;
    RunningStart(times, start, 20, ms);
    RunningStart(times, start, 1000, ms);
    RunningStart(times, start, 10000, ms);
    for i := 0 to |times|
      invariant manager.Valid()
      invariant timers.last20ms < WORD && timers.last1s < WORD && timers.last10s < WORD
      invariant forall m :: m in manager.modules ==> m.tickCount == old(m.tickCount) + i * OnCore(Chain(f, m), core)
      invariant Running(times, start, 20, i, f20ms, t20ms, timers.last20ms, ms, log20ms)
      invariant Running(times, start, 1000, i, f1s, t1s, timers.last1s, ms, log1s)
      invariant Running(times, start, 10000, i, f10s, t10s, timers.last10s, ms, log10s)
    {
      var now := times[i] % WORD;
      RunningStep(times, start, 20, i, f20ms, t20ms, timers.last20ms, ms, log20ms);
      RunningStep(times, start, 1000, i, f1s, t1s, timers.last1s, ms, log1s);
      RunningStep(times, start, 10000, i, f10s, t10s, timers.last10s, ms, log10s);
      var entered, in20ms, in1s, in10s :=
        CorePass(manager, core, Elapsed(now, timers.last20ms) >= 20, Elapsed(now, timers.last1s) >= 1000,
                 Elapsed(now, timers.last10s) >= 10000);
      log20ms := log20ms + Entries(times[i], in20ms);
      log1s := log1s + Entries(times[i], in1s);
      log10s := log10s + Entries(times[i], in10s);
      var due20ms, due1s, due10s := timers.Pass(now);
      if due20ms { f20ms, t20ms := f20ms + [times[i]], times[i]; }
      if due1s { f1s, t1s := f1s + [times[i]], times[i]; }
      if due10s { f10s, t10s := f10s + [times[i]], times[i]; }
      OneMorePass(manager, f, i, core);
    }
    RunningEnd(f, core, times, start, 20, f20ms, t20ms, timers.last20ms, log20ms);
    RunningEnd(f, core, times, start, 1000, f1s, t1s, timers.last1s, log1s);
    RunningEnd(f, core, times, start, 10000, f10s, t10s, timers.last10s, log10s);
  }

  function Entries(t: nat, ms: seq<MoonModule>): (l: Log)
    ensures l == Stamped(t, ms)
  {
    seq(|ms|, i requires 0 <= i < |ms| => (t, ms[i]))
  }

  lemma OneMorePass(manager: ModuleManager, f: Forest<MoonModule>, i: nat, core: nat)
    ensures forall m :: m in manager.modules ==>
              (i + 1) * OnCore(Chain(f, m), core) == i * OnCore(Chain(f, m), core) + OnCore(Chain(f, m), core)
  {
    forall m | m in manager.modules
      ensures (i + 1) * OnCore(Chain(f, m), core) == i * OnCore(Chain(f, m), core) + OnCore(Chain(f, m), core)
    {
      ProductNext(i, OnCore(Chain(f, m), core));
    }
  }
}
