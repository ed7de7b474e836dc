/** The scheduler's pass over the modules of one core, and its cadence timers.  */
module Schedulers {
  import opened Arithmetic
  import opened Forests
  import opened MoonModules
  import opened ModuleManagers

  // ---- One pass ----

  /** The modules entered when each module of `s` with the given affinity is dispatched in turn:
      a dispatch enters the module and then everything below it, whatever its affinity. */
  ghost function Entered(f: Forest<MoonModule>, s: seq<MoonModule>, core: nat): seq<MoonModule> {
    if s == [] then []
    else (if s[0].core == core then Pre(TreeOf(f, s[0])) else []) + Entered(f, s[1..], core)
  }

  /** The ancestors of x, outermost first, and x itself. */
  ghost function Chain(f: Forest<MoonModule>, x: MoonModule): seq<MoonModule> {
    match f
    case Empty => []
    case Grow(n, k, r) =>
      if x == n then [n] else if x in Nodes(k) then [n] + Chain(k, x) else Chain(r, x)
  }

  ghost function OnCore(s: seq<MoonModule>, core: nat): nat {
    if s == [] then 0 else (if s[0].core == core then 1 else 0) + OnCore(s[1..], core)
  }

  lemma {:induction false} EnteredConcat(f: Forest<MoonModule>, a: seq<MoonModule>, b: seq<MoonModule>, core: nat)
    ensures Entered(f, a + b, core) == Entered(f, a, core) + Entered(f, b, core)
  {
    if a == [] {
      assert a + b == b;
    } else {
      EnteredConcat(f, a[1..], b, core);
      assert (a + b)[1..] == a[1..] + b;
      Assoc(if a[0].core == core then Pre(TreeOf(f, a[0])) else [], Entered(f, a[1..], core), Entered(f, b, core));
    }
  }

  /** Chain walks parent links: its last element is x, and each element is the parent of the next. */
  lemma {:induction false} ChainIsAncestry(f: Forest<MoonModule>, x: MoonModule)
    requires Distinct(f) && x in Nodes(f)
    ensures Chain(f, x) != [] && Chain(f, x)[|Chain(f, x)| - 1] == x
    ensures ParentOf(f, Chain(f, x)[0]) == None && Chain(f, x)[0] in Roots(f)
    ensures forall i :: 0 < i < |Chain(f, x)| ==> ParentOf(f, Chain(f, x)[i]) == Some(Chain(f, x)[i - 1])
    ensures forall i :: 0 <= i < |Chain(f, x)| ==> Chain(f, x)[i] in Nodes(f)
  {
    RootsInNodes(f);
    if x == f.node {
      ParentlessAreRoots(f, x);
    } else if x in Nodes(f.kids) {
      ChainIsAncestry(f.kids, x);
      var c := Chain(f.kids, x);
      assert Chain(f, x) == [f.node] + c;
      ParentlessAreRoots(f, f.node);
      forall i | 0 <= i < |c| ensures ParentOf(f, c[i]) == if i == 0 then Some(f.node) else ParentOf(f.kids, c[i]) {
        ParentlessAreRoots(f.kids, c[i]);
        if i == 0 {
          assert c[0] in Roots(f.kids);
        } else {
          assert ParentOf(f.kids, c[i]) == Some(c[i - 1]);
        }
      }
    } else {
      ChainIsAncestry(f.rest, x);
      var c := Chain(f.rest, x);
      forall i | 0 <= i < |c| ensures ParentOf(f, c[i]) == ParentOf(f.rest, c[i]) {
        RootIn(f.kids, c[i]);
      }
    }
  }

  lemma EnteredStep(f: Forest<MoonModule>, g: Forest<MoonModule>, core: nat)
    requires g.Grow? && TreeOf(f, g.node) == TreeOf(g, g.node)
    ensures Entered(f, Pre(g), core) ==
            (if g.node.core == core then Pre(TreeOf(g, g.node)) else [])
            + Entered(f, Pre(g.kids), core) + Entered(f, Pre(g.rest), core)
  {
    EnteredConcat(f, [g.node] + Pre(g.kids), Pre(g.rest), core);
    EnteredConcat(f, [g.node], Pre(g.kids), core);
    EnteredOne(f, g.node, core);
  }

  lemma EnteredEmpty(f: Forest<MoonModule>, g: Forest<MoonModule>, core: nat)
    requires g.Empty?
    ensures Entered(f, Pre(g), core) == []
  {
  }

  lemma EnteredOne(f: Forest<MoonModule>, m: MoonModule, core: nat)
    ensures Entered(f, [m], core) == if m.core == core then Pre(TreeOf(f, m)) else []
  {
    assert [m][1..] == [];
    NilMid(if m.core == core then Pre(TreeOf(f, m)) else [], []);
  }

  lemma {:induction false} EnteredCount(f: Forest<MoonModule>, g: Forest<MoonModule>, core: nat, x: MoonModule)
    requires Distinct(g) && forall y :: y in Nodes(g) ==> SubOf(f, y) == SubOf(g, y)
    ensures multiset(Entered(f, Pre(g), core))[x] == if x in Nodes(g) then OnCore(Chain(g, x), core) else 0
  {
    hide Pre, Entered, OnCore, Chain;
    if g.Grow? {
      EnteredStep(f, g, core);
      CountThree(if g.node.core == core then Pre(TreeOf(g, g.node)) else [],
                 Entered(f, Pre(g.kids), core), Entered(f, Pre(g.rest), core), x);
      TreeCount(g, x);
      EnteredCount(f, g.kids, core, x);
      EnteredCount(f, g.rest, core, x);
      if x in Nodes(g) {
        ChainStep(g, core, x);
      }
    } else {
      EnteredEmpty(f, g, core);
    }
  }

  lemma ChainStep(g: Forest<MoonModule>, core: nat, x: MoonModule)
    requires g.Grow? && Distinct(g) && x in Nodes(g)
    ensures OnCore(Chain(g, x), core) ==
            if x == g.node then (if x.core == core then 1 else 0)
            else if x in Nodes(g.kids) then (if g.node.core == core then 1 else 0) + OnCore(Chain(g.kids, x), core)
            else OnCore(Chain(g.rest, x), core)
  {
    assert [x][1..] == [];
    assert ([g.node] + Chain(g.kids, x))[1..] == Chain(g.kids, x);
  }

  lemma CountThree<T>(a: seq<T>, b: seq<T>, c: seq<T>, x: T)
    ensures multiset(a + b + c)[x] == multiset(a)[x] + multiset(b)[x] + multiset(c)[x]
  {
  }

  /** A subtree's walk enters each of its modules once. */
  lemma TreeCount(g: Forest<MoonModule>, x: MoonModule)
    requires g.Grow? && Distinct(g)
    ensures multiset(Pre(TreeOf(g, g.node)))[x] == if x == g.node || x in Nodes(g.kids) then 1 else 0
  {
    var s := Pre(TreeOf(g, g.node));
    PreNodes(TreeOf(g, g.node));
    DistinctNoDup(TreeOf(g, g.node));
    NoDupCount(s, x);
    assert x in s <==> x in Elems(s);
  }

  lemma {:induction false} NoDupCount<T>(s: seq<T>, x: T)
    requires NoDup(s)
    ensures multiset(s)[x] == if x in s then 1 else 0
  {
    if s != [] {
      assert s == [s[0]] + s[1..];
      assert s[0] !in s[1..];
      NoDupCount(s[1..], x);
    }
  }

  /** Dispatches follow the owner list: whatever stands first is entered first, with all below it. */
  lemma EntriesInOwnerOrder(f: Forest<MoonModule>, ms: seq<MoonModule>, core: nat, i: nat, j: nat)
    returns (before: seq<MoonModule>, between: seq<MoonModule>, after: seq<MoonModule>)
    requires i < j < |ms| && ms[i].core == ms[j].core == core
    ensures Entered(f, ms, core) == before + Pre(TreeOf(f, ms[i])) + between + Pre(TreeOf(f, ms[j])) + after
  {
    hide Pre, Entered;
    before, between, after := Entered(f, ms[..i], core), Entered(f, ms[i + 1..j], core), Entered(f, ms[j + 1..], core);
    assert ms == ms[..i] + [ms[i]] + ms[i + 1..j] + [ms[j]] + ms[j + 1..];
    EnteredConcat(f, ms[..i] + [ms[i]] + ms[i + 1..j] + [ms[j]], ms[j + 1..], core);
    EnteredConcat(f, ms[..i] + [ms[i]] + ms[i + 1..j], [ms[j]], core);
    EnteredConcat(f, ms[..i] + [ms[i]], ms[i + 1..j], core);
    EnteredConcat(f, ms[..i], [ms[i]], core);
    EnteredOne(f, ms[i], core);
    EnteredOne(f, ms[j], core);
  }

  /** In one pass of a core, a module is entered once for every module with that affinity on its
      chain of ancestors, itself included. */
  lemma EntriesPerPass(f: Forest<MoonModule>, core: nat, x: MoonModule)
    requires Distinct(f) && x in Nodes(f)
    ensures multiset(Entered(f, Pre(f), core))[x] == OnCore(Chain(f, x), core)
  {
    EnteredCount(f, f, core, x);
  }

  /** Without nesting, that is once on its own core and never on another. */
  lemma FlatEntries(f: Forest<MoonModule>, core: nat, x: MoonModule)
    requires Distinct(f) && x in Roots(f)
    ensures multiset(Entered(f, Pre(f), core))[x] == if x.core == core then 1 else 0
  {
    RootIn(f, x);
    RootChain(f, x);
    EntriesPerPass(f, core, x);
    assert [x][1..] == [];
  }

  lemma {:induction false} RootChain(f: Forest<MoonModule>, x: MoonModule)
    requires Distinct(f) && x in Roots(f)
    ensures Chain(f, x) == [x]
  {
    RootIn(f.rest, x);
    if x != f.node {
      RootChain(f.rest, x);
    }
  }

  lemma TreeReady(node: MoonModule, kids: Forest<MoonModule>, owners: seq<MoonModule>)
    requires Distinct(Grow(node, kids, Empty)) && Nodes(kids) <= Elems(owners)
    ensures Distinct(kids) && forall m :: m in Nodes(kids) ==> m in owners
    ensures Pre(Grow(node, kids, Empty)) == [node] + Pre(kids) + []
  {
  }

  lemma WalkInside(kids: Forest<MoonModule>, g: Forest<MoonModule>, now: set<MoonModule>, head: seq<MoonModule>,
                   entered: seq<MoonModule>, owners: seq<MoonModule>)
    requires Walked(kids, g, {}, now, head, entered) && g.Grow? && Nodes(kids) <= Elems(owners)
    ensures Nodes(g.kids) <= Elems(owners) && g.node in owners && Distinct(g)
  {
    assert g.node in Elems(owners);
  }

  /** Enter `node`, count the tick, then do the same for its children in order. */
  method RunLoop(node: MoonModule, ghost kids: Forest<MoonModule>, ghost owners: seq<MoonModule>)
    returns (entered: seq<MoonModule>)
    requires Distinct(Grow(node, kids, Empty)) && node.children == Roots(kids) && Shaped(kids)
    requires Nodes(kids) <= Elems(owners) && node in owners
    modifies set m | m in owners :: m`tickCount
    ensures entered == Pre(Grow(node, kids, Empty))
    ensures forall m :: m in owners ==> m.tickCount == old(m.tickCount) + multiset(entered)[m]
    decreases |Pre(kids)|
  {
    hide Pre, Distinct, ParentOf, Roots, Select, Elems, Entered, OnCore, Chain, Walked;
    TreeReady(node, kids, owners);
    node.tickCount := node.tickCount + 1;
    entered := [node];
    ghost var g, now := kids, {};
    WalkStart(kids, {}, [node]);
    for i := 0 to |node.children|
      invariant Walked(kids, g, {}, now, [node], entered)
      invariant Roots(g) == node.children[i..] && Shaped(g)
      invariant forall m :: m in owners ==> m.tickCount == old(m.tickCount) + multiset(entered)[m]
    {
      RootsStep(g, node.children, i);
      WalkStep(kids, g, {}, now, [node], entered);
      ShapedParts(g);
      WalkInside(kids, g, now, [node], entered, owners);
      var below := RunLoop(node.children[i], g.kids, owners);
      entered := entered + below;
      now := now + Nodes(TreeOf(g, g.node));
      g := g.rest;
    }
    WalkEnd(kids, g, {}, now, [node], entered);
    NilMid([node] + Pre(kids), []);
  }

  /** Dispatch a slow hook to `node` and to everything below it, in the same order. */
  method RunHook(node: MoonModule, ghost kids: Forest<MoonModule>, ghost owners: seq<MoonModule>)
    returns (entered: seq<MoonModule>)
    requires Distinct(Grow(node, kids, Empty)) && node.children == Roots(kids) && Shaped(kids)
    requires Nodes(kids) <= Elems(owners) && node in owners
    ensures entered == Pre(Grow(node, kids, Empty))
    decreases |Pre(kids)|
  {
    hide Pre, Distinct, ParentOf, Roots, Select, Elems, Entered, OnCore, Chain, Walked;
    TreeReady(node, kids, owners);
    entered := [node];
    ghost var g, now := kids, {};
    WalkStart(kids, {}, [node]);
    for i := 0 to |node.children|
      invariant Walked(kids, g, {}, now, [node], entered)
      invariant Roots(g) == node.children[i..] && Shaped(g)
    {
      RootsStep(g, node.children, i);
      WalkStep(kids, g, {}, now, [node], entered);
      ShapedParts(g);
      WalkInside(kids, g, now, [node], entered, owners);
      var below := RunHook(node.children[i], g.kids, owners);
      entered := entered + below;
      now := now + Nodes(TreeOf(g, g.node));
      g := g.rest;
    }
    WalkEnd(kids, g, {}, now, [node], entered);
    NilMid([node] + Pre(kids), []);
  }

  /** The pass's entries if the hook is due, else none. */
  ghost function When(due: bool, s: seq<MoonModule>): seq<MoonModule> {
    if due then s else []
  }

  lemma WhenNext(due: bool, a: seq<MoonModule>, b: seq<MoonModule>)
    ensures When(due, a + b) == When(due, a) + When(due, b) && When(due, []) == []
  {
  }

  /** A slow hook's dispatch to one module of the core. */
  method Dispatch(manager: ModuleManager, m: MoonModule, due: bool, before: seq<MoonModule>) returns (ran: seq<MoonModule>)
    requires manager.Valid() && m in manager.modules
    ensures ran == before + When(due, Pre(TreeOf(manager.forest, m)))
  {
    ran := before;
    if due {
      DispatchReady(manager, m);
      var below := RunHook(m, SubOf(manager.forest, m), manager.modules);
      ran := ran + below;
    }
  }

  /** One lock-held pass: dispatch every module whose affinity is this core, first its loop and then
      the slow hooks that are due. The results are the modules entered, hook by hook. */
  method CorePass(manager: ModuleManager, core: nat, due20ms: bool, due1s: bool, due10s: bool)
    returns (entered: seq<MoonModule>, in20ms: seq<MoonModule>, in1s: seq<MoonModule>, in10s: seq<MoonModule>)
    requires manager.Valid()
    modifies set m | m in manager.modules :: m`tickCount
    ensures manager.Valid()
    ensures entered == Entered(manager.forest, manager.modules, core)
    ensures in20ms == When(due20ms, entered) && in1s == When(due1s, entered) && in10s == When(due10s, entered)
    ensures forall m :: m in manager.modules ==> m.tickCount == old(m.tickCount) + OnCore(Chain(manager.forest, m), core)
  {
    hide Pre, Distinct, SubOf, ParentOf, Roots, Entered, Nodes, Elems, OnCore, Chain, When, Shaped;
    ghost var f, ms := manager.forest, manager.modules;
    forall due: bool ensures When(due, []) == [] { WhenNext(due, [], []); }
    entered, in20ms, in1s, in10s := [], [], [], [];
    EnteredNone(f, ms, core);
    for i := 0 to |manager.modules|
      invariant manager.Valid() && entered == Entered(f, ms[..i], core)
      invariant in20ms == When(due20ms, entered) && in1s == When(due1s, entered) && in10s == When(due10s, entered)
      invariant forall m :: m in ms ==> m.tickCount == old(m.tickCount) + multiset(entered)[m]
    {
      var m := manager.modules[i];
      EnteredNext(f, ms, i, core);
      if m.core == core {
        DispatchReady(manager, m);
        var below := RunLoop(m, SubOf(f, m), ms);
        WhenNext(due20ms, entered, below);
        WhenNext(due1s, entered, below);
        WhenNext(due10s, entered, below);
        entered := entered + below;
        in20ms := Dispatch(manager, m, due20ms, in20ms);
        in1s := Dispatch(manager, m, due1s, in1s);
        in10s := Dispatch(manager, m, due10s, in10s);
      }
    }
    assert ms[..|ms|] == ms;
    forall m | m in ms ensures multiset(entered)[m] == OnCore(Chain(f, m), core) {
      OwnerInTree(f, m);
      EntriesPerPass(f, core, m);
    }
  }

  lemma EnteredNone(f: Forest<MoonModule>, ms: seq<MoonModule>, core: nat)
    ensures Entered(f, ms[..0], core) == []
  {
  }

  lemma OwnerInTree(f: Forest<MoonModule>, m: MoonModule)
    requires m in Pre(f)
    ensures m in Nodes(f)
  {
    PreNodes(f);
    assert m in Elems(Pre(f));
  }

  lemma EnteredNext(f: Forest<MoonModule>, ms: seq<MoonModule>, i: nat, core: nat)
    requires i < |ms|
    ensures Entered(f, ms[..i + 1], core) ==
            Entered(f, ms[..i], core) + (if ms[i].core == core then Pre(TreeOf(f, ms[i])) else [])
  {
    assert ms[..i + 1] == ms[..i] + [ms[i]];
    EnteredConcat(f, ms[..i], [ms[i]], core);
    EnteredOne(f, ms[i], core);
  }

  lemma DispatchReady(manager: ModuleManager, m: MoonModule)
    requires manager.Valid() && m in manager.modules
    ensures m.children == Roots(SubOf(manager.forest, m)) && Shaped(SubOf(manager.forest, m))
    ensures Nodes(SubOf(manager.forest, m)) <= Elems(manager.modules) && Distinct(TreeOf(manager.forest, m))
  {
    var f, s := manager.forest, SubOf(manager.forest, m);
    PreNodes(f);
    SubOfNodes(f, m);
    assert Linked(f, m);
    forall y | y in Nodes(s) ensures y.children == KidsOf(s, y) {
      assert y in Elems(manager.modules);
      SubOfSubOf(f, m, y);
      assert Linked(f, y);
    }
  }

  // ---- Cadences ----

  /** The timers of one core; `now` is the 32-bit millisecond clock read at the top of a pass. */
  class CoreTimers {
    var last20ms: nat
    var last1s: nat
    var last10s: nat

    constructor (now: nat)
      requires now < WORD
      ensures last20ms == last1s == last10s == now
    {
      last20ms, last1s, last10s := now, now, now;
    }

    /** Which of the slow hooks run in the pass that read `now`. */
    method Pass(now: nat) returns (due20ms: bool, due1s: bool, due10s: bool)
      requires now < WORD && last20ms < WORD && last1s < WORD && last10s < WORD
      modifies this
      ensures due20ms <==> Elapsed(now, old(last20ms)) >= 20
      ensures due1s <==> Elapsed(now, old(last1s)) >= 1000
      ensures due10s <==> Elapsed(now, old(last10s)) >= 10000
      ensures last20ms == if due20ms then now else old(last20ms)
      ensures last1s == if due1s then now else old(last1s)
      ensures last10s == if due10s then now else old(last10s)
    {
      due20ms := Elapsed(now, last20ms) >= 20;
      due1s := Elapsed(now, last1s) >= 1000;
      due10s := Elapsed(now, last10s) >= 10000;
      if due20ms { last20ms := now; }
      if due1s { last1s := now; }
      if due10s { last10s := now; }
    }
  }

  /** The true times of the passes in which a hook of the given period runs, when the passes
      read the true times `times` and the timer was last set at true time `last`. */
  function Firings(times: seq<nat>, last: nat, period: nat): seq<nat> {
    if times == [] then []
    else if Elapsed(times[0] % WORD, last % WORD) >= period then [times[0]] + Firings(times[1..], times[0], period)
    else Firings(times[1..], last, period)
  }

  ghost predicate Ascending(times: seq<nat>, from: nat) {
    && (forall i :: 0 <= i < |times| ==> from <= times[i])
    && forall i, j :: 0 <= i < j < |times| ==> times[i] <= times[j]
  }

  /** Successive runs of a hook are at least a period apart, however often the clock wraps. */
  lemma {:induction false} FiringsApart(times: seq<nat>, last: nat, period: nat)
    requires Ascending(times, last)
    ensures forall i :: 0 <= i < |Firings(times, last, period)| ==>
              Firings(times, last, period)[i] >= last + period * (i + 1)
    ensures forall i :: 0 < i < |Firings(times, last, period)| ==>
              Firings(times, last, period)[i] - Firings(times, last, period)[i - 1] >= period
  {
    if times != [] {
      var t := times[0];
      if Elapsed(t % WORD, last % WORD) >= period {
        ElapsedIsShort(t, last);
        FiringsApart(times[1..], t, period);
        var rest := Firings(times[1..], t, period);
        forall i | 0 < i < |rest| + 1
          ensures ([t] + rest)[i] >= last + period * (i + 1)
        {
          assert rest[i - 1] >= t + period * i;
          assert period * (i + 1) == period * i + period;
        }
      } else {
        FiringsApart(times[1..], last, period);
      }
    }
  }

  lemma ElapsedIsShort(t: nat, last: nat)
    requires last <= t
    ensures Elapsed(t % WORD, last % WORD) <= t - last
  {
    ElapsedModulo(t, last);
  }

  /** If the clock is read at least once per wrap, no run that is due is skipped: when a
      period or more has truly passed, the hook runs in that pass. */
  lemma DueWithinAWrap(t: nat, last: nat, period: nat)
    requires last <= t < last + WORD
    ensures Elapsed(t % WORD, last % WORD) >= period <==> t - last >= period
  {
    ElapsedWithinAWrap(t, last);
  }

  /** No two readings further apart than a wrap less a period. */
  ghost predicate ReadOften(times: seq<nat>, from: nat, period: nat) {
    && (times != [] ==> times[0] < from + WORD - period)
    && forall i :: 0 < i < |times| ==> times[i] < times[i - 1] + WORD - period
  }

  /** Then no pass leaves a hook overdue: less than a period before every pass, or in it, lies a run
      of the hook or the start. */
  lemma {:induction false} NeverOverdue(times: seq<nat>, last: nat, before: nat, period: nat, i: nat)
    requires Ascending(times, before) && ReadOften(times, before, period) && 0 < period < WORD && i < |times|
    requires last <= before < last + period
    ensures exists t :: t in [last] + Firings(times, last, period) && t <= times[i] < t + period
  {
    var t := times[0];
    ElapsedWithinAWrap(t, last);
    var due := Elapsed(t % WORD, last % WORD) >= period;
    var from := if due then t else last;
    var all := [last] + Firings(times, last, period);
    assert all[0] == last && (due ==> all[1] == t);
    assert due ==> all[1..] == [t] + Firings(times[1..], t, period);
    if i == 0 {
      assert from in all && from <= times[0] < from + period;
    } else {
      assert ReadOften(times[1..], t, period) by {
        assert times[1] < times[0] + WORD - period;
        forall k | 0 < k < |times[1..]| ensures times[1..][k] < times[1..][k - 1] + WORD - period {
          assert times[k + 1] < times[k] + WORD - period;
        }
      }
      NeverOverdue(times[1..], from, t, period, i - 1);
      var x :| x in [from] + Firings(times[1..], from, period) && x <= times[i] < x + period;
      assert x in all;
    }
  }

  lemma FiringsStep(times: seq<nat>, i: nat, last: nat, period: nat)
    requires i < |times|
    ensures Firings(times[i..], last, period) ==
            if Elapsed(times[i] % WORD, last % WORD) >= period then [times[i]] + Firings(times[i + 1..], times[i], period)
            else Firings(times[i + 1..], last, period)
  {
    assert times[i..][1..] == times[i + 1..];
  }

  /** The runs of one hook so far, and those still to come from its timer's last setting. */
  ghost predicate OnSchedule(times: seq<nat>, start: nat, period: nat, i: nat, fired: seq<nat>, last: nat, timer: nat) {
    i <= |times| && timer == last % WORD && fired + Firings(times[i..], last, period) == Firings(times, start, period)
  }

  lemma ScheduleStep(times: seq<nat>, start: nat, period: nat, i: nat, fired: seq<nat>, last: nat, timer: nat)
    requires OnSchedule(times, start, period, i, fired, last, timer) && timer < WORD && i < |times|
    ensures var due := Elapsed(times[i] % WORD, timer) >= period;
            OnSchedule(times, start, period, i + 1, if due then fired + [times[i]] else fired,
                       if due then times[i] else last, if due then times[i] % WORD else timer)
  {
    FiringsStep(times, i, last, period);
    Assoc(fired, [times[i]], Firings(times[i + 1..], times[i], period));
  }

  lemma ScheduleBegins(times: seq<nat>, start: nat, period: nat)
    ensures OnSchedule(times, start, period, 0, [], start, start % WORD)
  {
    assert times[0..] == times && [] + Firings(times, start, period) == Firings(times, start, period);
  }

  lemma ScheduleEnds(times: seq<nat>, start: nat, period: nat, fired: seq<nat>, last: nat, timer: nat)
    requires Ascending(times, start) && OnSchedule(times, start, period, |times|, fired, last, timer)
    ensures fired == Firings(times, start, period) && Apart(fired, start, period)
  {
    assert times[|times|..] == [] && fired + [] == fired;
    FiringsApart(times, start, period);
  }

  /** The first run comes a period after the start, every other a period after the one before. */
  ghost predicate Apart(fired: seq<nat>, start: nat, period: nat) {
    forall i :: 0 <= i < |fired| ==> fired[i] - (if i == 0 then start else fired[i - 1]) >= period
  }

  /** A core's timers over its passes, which read the clock at the true times `times`. The results
      are the true times of the passes in which each slow hook ran: runs of a hook are at least its
      period apart, however often the clock wraps. */
  method RunTimers(times: seq<nat>, start: nat) returns (at20ms: seq<nat>, at1s: seq<nat>, at10s: seq<nat>)
    requires Ascending(times, start)
    ensures at20ms == Firings(times, start, 20) && Apart(at20ms, start, 20)
    ensures at1s == Firings(times, start, 1000) && Apart(at1s, start, 1000)
    ensures at10s == Firings(times, start, 10000) && Apart(at10s, start, 10000)
  {
    hide Firings, OnSchedule, Apart, Elapsed;
    at20ms, at1s, at10s := [], [], [];
    var timers := new CoreTimers(start % WORD);
    ghost var t20ms, t1s, t10s := start, start, start;
    ScheduleBegins(times, start, 20);
    ScheduleBegins(times, start, 1000);
    ScheduleBegins(times, start, 10000);
    for i := 0 to |times|
      invariant timers.last20ms < WORD && timers.last1s < WORD && timers.last10s < WORD
      invariant OnSchedule(times, start, 20, i, at20ms, t20ms, timers.last20ms)
      invariant OnSchedule(times, start, 1000, i, at1s, t1s, timers.last1s)
      invariant OnSchedule(times, start, 10000, i, at10s, t10s, timers.last10s)
    {
      ScheduleStep(times, start, 20, i, at20ms, t20ms, timers.last20ms);
      ScheduleStep(times, start, 1000, i, at1s, t1s, timers.last1s);
      ScheduleStep(times, start, 10000, i, at10s, t10s, timers.last10s);
      var due20ms, due1s, due10s := timers.Pass(times[i] % WORD);
      if due20ms { at20ms, t20ms := at20ms + [times[i]], times[i]; }
      if due1s { at1s, t1s := at1s + [times[i]], times[i]; }
      if due10s { at10s, t10s := at10s + [times[i]], times[i]; }
    }
    ScheduleEnds(times, start, 20, at20ms, t20ms, timers.last20ms);
    ScheduleEnds(times, start, 1000, at1s, t1s, timers.last1s);
    ScheduleEnds(times, start, 10000, at10s, t10s, timers.last10s);
  }
}
