/** The canvas view's graph: which top-level module feeds which, and the column each is drawn in.  */
module Columns {
  import opened Forests

  datatype Id = Id(name: string)

  /** The empty name stands for none. */
  const NO_ID: Id := Id("")

  /** A module as the page receives it: its parent's id, and the values of its text controls. */
  datatype Module = Module(id: Id, parent: Option<Id>, texts: seq<Id>)

  // ---- Roots ----

  ghost predicate UniqueIds(ms: seq<Module>) {
    forall i, j :: 0 <= i < j < |ms| ==> ms[i].id != ms[j].id
  }

  function ById(ms: seq<Module>): (table: map<Id, Module>) {
    if ms == [] then map[] else ById(ms[..|ms| - 1])[ms[|ms| - 1].id := ms[|ms| - 1]]
  }

  /** No parent, or one that is not in the list. */
  predicate IsRoot(table: map<Id, Module>, m: Module) {
    m.parent.None? || m.parent.value == NO_ID || m.parent.value !in table
  }

  /** The value of a text control names a listed module. */
  predicate Names(table: map<Id, Module>, value: Id) {
    value != NO_ID && value in table
  }

  function RootIds(table: map<Id, Module>, ms: seq<Module>): (r: seq<Id>) {
    if ms == [] then []
    else
      var m, before := ms[|ms| - 1], RootIds(table, ms[..|ms| - 1]);
      if IsRoot(table, m) then before + [m.id] else before
  }

  lemma {:induction false} Listed(ms: seq<Module>, m: Module)
    requires m in ms
    ensures m.id in ById(ms)
  {
    if m != ms[|ms| - 1] {
      assert ms == ms[..|ms| - 1] + [ms[|ms| - 1]];
      Listed(ms[..|ms| - 1], m);
    }
  }

  /** The roots are listed once each, in list order, and are modules without a listed parent. */
  lemma {:induction false} RootsDistinct(table: map<Id, Module>, ms: seq<Module>)
    requires UniqueIds(ms)
    ensures NoDup(RootIds(table, ms))
    ensures forall id :: id in RootIds(table, ms) <==> exists i :: 0 <= i < |ms| && ms[i].id == id && IsRoot(table, ms[i])
  {
    if ms != [] {
      var front, m := ms[..|ms| - 1], ms[|ms| - 1];
      RootsDistinct(table, front);
      assert forall i :: 0 <= i < |front| ==> front[i] == ms[i] && front[i].id != m.id;
      assert m.id !in RootIds(table, front);
      if IsRoot(table, m) {
        NoDupOneMore(RootIds(table, front), m.id);
      }
    }
  }

  const CLIMB_LIMIT: nat := 64

  /** Up the parents, at most 64 steps. */
  function RootOf(table: map<Id, Module>, id: Id, guard: nat): Id
    requires guard <= CLIMB_LIMIT
    decreases CLIMB_LIMIT - guard
  {
    if id in table && !IsRoot(table, table[id]) && guard < CLIMB_LIMIT then RootOf(table, table[id].parent.value, guard + 1)
    else id
  }

  function Ancestor(table: map<Id, Module>, id: Id, n: nat): (a: Option<Id>)
    ensures a.Some? ==> a.value in table
    decreases n
  {
    if id !in table then None
    else if n == 0 then Some(id)
    else if IsRoot(table, table[id]) then None
    else Ancestor(table, table[id].parent.value, n - 1)
  }

  /** The n-th ancestor is a root. */
  ghost predicate RootWithin(table: map<Id, Module>, id: Id, n: nat) {
    var a := Ancestor(table, id, n);
    a.Some? && IsRoot(table, table[a.value])
  }

  /** Climbing ends at a root exactly when the nesting above is at most 64 deep. */
  lemma {:induction false} ClimbReachesRoot(table: map<Id, Module>, id: Id, guard: nat)
    requires id in table && guard <= CLIMB_LIMIT
    ensures RootOf(table, id, guard) in table
    ensures IsRoot(table, table[RootOf(table, id, guard)]) <==>
            exists n: nat :: n <= CLIMB_LIMIT - guard && RootWithin(table, id, n)
    decreases CLIMB_LIMIT - guard
  {
    hide IsRoot;
    if IsRoot(table, table[id]) {
      assert Ancestor(table, id, 0) == Some(id);
      assert RootWithin(table, id, 0) && RootOf(table, id, guard) == id;
    } else if guard < CLIMB_LIMIT {
      var up := UpOf(table, id);
      ClimbReachesRoot(table, up, guard + 1);
      forall n: nat ensures RootWithin(table, id, n) <==> n > 0 && RootWithin(table, up, n - 1) {
      }
      if n: nat :| n <= CLIMB_LIMIT - guard - 1 && RootWithin(table, up, n) {
        assert RootWithin(table, id, n + 1);
      }
    } else {
      assert RootOf(table, id, guard) == id;
      forall n: nat | n <= CLIMB_LIMIT - guard ensures !RootWithin(table, id, n) {
        assert n == 0;
      }
    }
  }

  // ---- ... said of the module list ----

  /** A top-level module: its parent's id is empty or no module's. */
  ghost predicate Top(ms: seq<Module>, m: Module) {
    m.parent.Some? && m.parent.value != NO_ID ==> forall k :: 0 <= k < |ms| ==> ms[k].id != m.parent.value
  }

  /** Going up from m to the module its parent id names, and so on, at most n times, ends at the
      top-level module r. */
  ghost predicate Under(ms: seq<Module>, m: Module, r: Id, n: nat)
    decreases n
  {
    if Top(ms, m) then r == m.id
    else n > 0 && exists k :: 0 <= k < |ms| && m.parent == Some(ms[k].id) && Under(ms, ms[k], r, n - 1)
  }

  /** The table holds the modules of the list under their ids. */
  lemma {:induction false} TableIs(ms: seq<Module>)
    requires UniqueIds(ms)
    ensures forall i :: 0 <= i < |ms| ==> ms[i].id in ById(ms) && ById(ms)[ms[i].id] == ms[i]
    ensures forall id :: id in ById(ms) ==> exists i :: 0 <= i < |ms| && ms[i].id == id
  {
    if ms != [] {
      var front := ms[..|ms| - 1];
      assert forall i :: 0 <= i < |front| ==> front[i] == ms[i];
      TableIs(front);
      forall id | id in ById(ms) ensures exists i :: 0 <= i < |ms| && ms[i].id == id {
        if id in ById(front) {
          var i :| 0 <= i < |front| && front[i].id == id;
          assert ms[i].id == id;
        }
      }
    }
  }

  lemma RootIsTop(ms: seq<Module>, m: Module)
    requires UniqueIds(ms)
    ensures IsRoot(ById(ms), m) <==> Top(ms, m)
  {
    hide ById, UniqueIds;
    TableIs(ms);
  }

  /** The guarded climb from a module ends at the root r exactly when r lies above it. */
  lemma {:induction false} ClimbEndsAbove(ms: seq<Module>, i: nat, guard: nat, r: Id)
    requires UniqueIds(ms) && i < |ms| && guard <= CLIMB_LIMIT && r in RootIds(ById(ms), ms)
    ensures RootOf(ById(ms), ms[i].id, guard) == r <==> Under(ms, ms[i], r, CLIMB_LIMIT - guard)
    decreases CLIMB_LIMIT - guard
  {
    hide ById, UniqueIds, RootIds, IsRoot, Top;
    TableIs(ms);
    RootIsTop(ms, ms[i]);
    if !Top(ms, ms[i]) {
      if guard < CLIMB_LIMIT {
        var up := UpOf(ById(ms), ms[i].id);
        var k :| 0 <= k < |ms| && ms[k].id == up;
        ClimbEndsAbove(ms, k, guard + 1, r);
        forall j | 0 <= j < |ms| && ms[i].parent == Some(ms[j].id) ensures j == k {
          SameIndex(ms, j, k);
        }
      } else if r == ms[i].id {
        RootListed(ms, r, i);
      }
    }
  }

  lemma SameIndex(ms: seq<Module>, j: nat, k: nat)
    requires UniqueIds(ms) && j < |ms| && k < |ms| && ms[j].id == ms[k].id
    ensures j == k
  {
  }

  /** A listed root is top-level. */
  lemma RootListed(ms: seq<Module>, r: Id, i: nat)
    requires UniqueIds(ms) && i < |ms| && r in RootIds(ById(ms), ms) && r == ms[i].id
    ensures Top(ms, ms[i])
  {
    RootsDistinct(ById(ms), ms);
    var j :| 0 <= j < |ms| && ms[j].id == r && IsRoot(ById(ms), ms[j]);
    SameIndex(ms, i, j);
    RootIsTop(ms, ms[i]);
  }

  lemma UpOf(table: map<Id, Module>, id: Id) returns (up: Id)
    requires id in table && !IsRoot(table, table[id])
    ensures up in table && table[id].parent == Some(up)
  {
    up := table[id].parent.value;
  }

  // ---- The graph ----

  datatype Graph = Graph(roots: seq<Id>, feeds: map<Id, seq<Id>>)

  /** Edges leave roots only. A consumer nested too deep for the climb is listed under its source
      although it is no root; its counters hold no numbers and take no part. */
  ghost predicate WellFormed(g: Graph) {
    && NoDup(g.roots)
    && (forall id :: id in g.feeds <==> id in g.roots)
    && forall s :: s in g.feeds ==> NoDup(g.feeds[s]) && forall c :: c in g.feeds[s] ==> c != s
  }

  /** The roots a root takes data from. */
  ghost function Sources(feeds: map<Id, seq<Id>>, v: Id): set<Id> {
    set s | s in feeds && v in feeds[s]
  }

  /** Text control j of module i names a module under another root: the edge it draws. */
  ghost predicate Draws(ms: seq<Module>, i: nat, j: nat, s: Id, c: Id)
    requires i < |ms| && j < |ms[i].texts|
  {
    var table := ById(ms);
    Names(table, ms[i].texts[j]) && s == RootOf(table, ms[i].texts[j], 0) && c == RootOf(table, ms[i].id, 0) && s != c
  }

  /** Some control before position (i, j) draws the edge. */
  ghost predicate DrawnBefore(ms: seq<Module>, i: nat, j: nat, s: Id, c: Id) {
    exists a: nat, b: nat :: a < |ms| && b < |ms[a].texts| && (a < i || (a == i && b < j)) && Draws(ms, a, b, s, c)
  }

  /** The edges collected are those drawn before position (i, j). */
  ghost predicate Collected(ms: seq<Module>, i: nat, j: nat, roots: seq<Id>, feeds: map<Id, seq<Id>>)
    requires forall s :: s in roots ==> s in feeds
  {
    forall s, c :: s in roots && c in roots ==> (c in feeds[s] <==> DrawnBefore(ms, i, j, s, c))
  }

  /** Some text control of a module under c holds the id of a module under s. */
  ghost predicate Reads(ms: seq<Module>, s: Id, c: Id) {
    exists i: nat, j: nat, k: nat :: ReadsAt(ms, i, j, k, s, c)
  }

  ghost predicate ReadsAt(ms: seq<Module>, i: nat, j: nat, k: nat, s: Id, c: Id) {
    && i < |ms| && j < |ms[i].texts| && k < |ms|
    && ms[i].texts[j] == ms[k].id && ms[k].id != NO_ID
    && Under(ms, ms[k], s, 64) && Under(ms, ms[i], c, 64)
  }

  /** Between two roots, the controls that draw the edge are those. */
  lemma DrawnIsRead(ms: seq<Module>, s: Id, c: Id)
    requires UniqueIds(ms) && s in RootIds(ById(ms), ms) && c in RootIds(ById(ms), ms)
    ensures DrawnBefore(ms, |ms|, 0, s, c) <==> s != c && Reads(ms, s, c)
  {
    hide ById, UniqueIds, RootIds, RootOf, Under, Draws;
    TableIs(ms);
    if DrawnBefore(ms, |ms|, 0, s, c) {
      var i: nat, j: nat :| i < |ms| && j < |ms[i].texts| && Draws(ms, i, j, s, c);
      var k := DrawsReads(ms, i, j, s, c);
      assert ReadsAt(ms, i, j, k, s, c);
    }
    if s != c && Reads(ms, s, c) {
      var i: nat, j: nat, k: nat :| ReadsAt(ms, i, j, k, s, c);
      ClimbEndsAbove(ms, i, 0, c);
      ClimbEndsAbove(ms, k, 0, s);
      assert Draws(ms, i, j, s, c) by { Drawn(ms, i, j, s, c); }
    }
  }

  lemma Drawn(ms: seq<Module>, i: nat, j: nat, s: Id, c: Id)
    requires i < |ms| && j < |ms[i].texts| && ms[i].texts[j] in ById(ms) && ms[i].texts[j] != NO_ID
    requires s == RootOf(ById(ms), ms[i].texts[j], 0) && c == RootOf(ById(ms), ms[i].id, 0) && s != c
    ensures Draws(ms, i, j, s, c)
  {
  }

  lemma DrawsReads(ms: seq<Module>, i: nat, j: nat, s: Id, c: Id) returns (k: nat)
    requires UniqueIds(ms) && s in RootIds(ById(ms), ms) && c in RootIds(ById(ms), ms)
    requires i < |ms| && j < |ms[i].texts| && Draws(ms, i, j, s, c)
    ensures s != c && ReadsAt(ms, i, j, k, s, c)
  {
    hide ById, UniqueIds, RootIds, RootOf, Under;
    TableIs(ms);
    k :| 0 <= k < |ms| && ms[k].id == ms[i].texts[j];
    ClimbEndsAbove(ms, i, 0, c);
    ClimbEndsAbove(ms, k, 0, s);
  }

  /** The graph of the list: its roots are the top-level modules, and between two of them there is
      an edge exactly if a module under the one reads a module under the other. */
  ghost predicate GraphOf(ms: seq<Module>, g: Graph)
    requires WellFormed(g)
  {
    && (forall id :: id in g.roots <==> exists i :: 0 <= i < |ms| && ms[i].id == id && Top(ms, ms[i]))
    && forall s, c :: s in g.roots && c in g.roots ==> (c in g.feeds[s] <==> s != c && Reads(ms, s, c))
  }

  lemma GraphIs(ms: seq<Module>, g: Graph)
    requires UniqueIds(ms) && WellFormed(g) && g.roots == RootIds(ById(ms), ms)
    requires forall s, c :: s in g.roots && c in g.roots ==> (c in g.feeds[s] <==> DrawnBefore(ms, |ms|, 0, s, c))
    ensures GraphOf(ms, g)
  {
    hide ById, UniqueIds, RootIds, Reads, DrawnBefore, NoDup, IsRoot, Top;
    RootsDistinct(ById(ms), ms);
    forall i | 0 <= i < |ms| ensures IsRoot(ById(ms), ms[i]) <==> Top(ms, ms[i]) {
      RootIsTop(ms, ms[i]);
    }
    forall s, c | s in g.roots && c in g.roots ensures c in g.feeds[s] <==> s != c && Reads(ms, s, c) {
      DrawnIsRead(ms, s, c);
    }
  }

  /** Edge collection: no edge from a root to itself, none twice, and incoming edges counted. */
  method Collect(ms: seq<Module>) returns (g: Graph, inDeg: map<Id, nat>)
    requires UniqueIds(ms)
    ensures WellFormed(g) && g.roots == RootIds(ById(ms), ms) && GraphOf(ms, g)
    ensures Counted(g.roots, g.feeds, inDeg)
  {
    hide Collecting, RootOf, UniqueIds, GraphOf, WellFormed, Counted, DrawnBefore, IsRoot, ById, RootIds, Sources, NoDup;
    var table := ById(ms);
    var roots := RootIds(table, ms);
    var feeds: map<Id, seq<Id>> := map id | id in roots :: [];
    inDeg := map id | id in roots :: 0;
    NoEdges(ms, table, roots, feeds, inDeg);
    for i := 0 to |ms|
      invariant Collecting(ms, i, 0, roots, feeds, inDeg)
    {
      var m := ms[i];
      for j := 0 to |m.texts|
        invariant Collecting(ms, i, j, roots, feeds, inDeg)
      {
        CollectStep(ms, i, j, roots, feeds, inDeg);
        if Names(table, m.texts[j]) {
          var cons, src := RootOf(table, m.id, 0), RootOf(table, m.texts[j], 0);
          if cons != src && src in feeds && cons !in feeds[src] {
            feeds := feeds[src := feeds[src] + [cons]];
            if cons in inDeg {
              inDeg := inDeg[cons := inDeg[cons] + 1];
            }
          }
        }
      }
      CollectedNext(ms, i, roots, feeds, inDeg);
    }
    g := Graph(roots, feeds);
    CollectedAll(ms, roots, feeds, inDeg);
    GraphIs(ms, g);
  }

  ghost predicate Collecting(ms: seq<Module>, i: nat, j: nat, roots: seq<Id>, feeds: map<Id, seq<Id>>, inDeg: map<Id, nat>) {
    Formed(roots, feeds, inDeg) && Collected(ms, i, j, roots, feeds)
  }

  lemma CollectedAll(ms: seq<Module>, roots: seq<Id>, feeds: map<Id, seq<Id>>, inDeg: map<Id, nat>)
    requires Collecting(ms, |ms|, 0, roots, feeds, inDeg)
    ensures WellFormed(Graph(roots, feeds)) && Counted(roots, feeds, inDeg)
    ensures forall s :: s in roots ==> s in feeds
    ensures forall s, c :: s in roots && c in roots ==> (c in feeds[s] <==> DrawnBefore(ms, |ms|, 0, s, c))
  {
    hide WellFormed, Counted, DrawnBefore;
  }

  /** One text control. */
  lemma CollectStep(ms: seq<Module>, i: nat, j: nat, roots: seq<Id>, feeds: map<Id, seq<Id>>, inDeg: map<Id, nat>)
    requires i < |ms| && j < |ms[i].texts| && roots == RootIds(ById(ms), ms)
    requires Collecting(ms, i, j, roots, feeds, inDeg)
    ensures var table := ById(ms);
            var cons, src := RootOf(table, ms[i].id, 0), RootOf(table, ms[i].texts[j], 0);
            if Names(table, ms[i].texts[j]) && cons != src && src in feeds && cons !in feeds[src]
            then Collecting(ms, i, j + 1, roots, feeds[src := feeds[src] + [cons]],
                            if cons in inDeg then inDeg[cons := inDeg[cons] + 1] else inDeg)
            else Collecting(ms, i, j + 1, roots, feeds, inDeg)
  {
    hide DrawnBefore, RootOf, ById, Collected, RootIds, WellFormed, Counted;
    var table := ById(ms);
    var cons, src := RootOf(table, ms[i].id, 0), RootOf(table, ms[i].texts[j], 0);
    if Names(table, ms[i].texts[j]) && cons != src && src in feeds && cons !in feeds[src] {
      JoinedForm(roots, feeds, src, cons);
      JoinedCounts(roots, feeds, inDeg, src, cons);
      CollectedOneMore(ms, i, j, roots, feeds, feeds[src := feeds[src] + [cons]]);
    } else {
      CollectedOneMore(ms, i, j, roots, feeds, feeds);
    }
  }

  ghost predicate Formed(roots: seq<Id>, feeds: map<Id, seq<Id>>, inDeg: map<Id, nat>) {
    && WellFormed(Graph(roots, feeds)) && Counted(roots, feeds, inDeg) && inDeg.Keys == feeds.Keys
    && (forall s :: s in roots <==> s in feeds)
  }

  lemma NoEdges(ms: seq<Module>, table: map<Id, Module>, roots: seq<Id>, feeds: map<Id, seq<Id>>, inDeg: map<Id, nat>)
    requires UniqueIds(ms) && table == ById(ms) && roots == RootIds(table, ms)
    requires (forall s :: s in roots <==> s in feeds) && feeds.Keys == inDeg.Keys
    requires forall s :: s in feeds ==> feeds[s] == [] && inDeg[s] == 0
    ensures Collecting(ms, 0, 0, roots, feeds, inDeg)
  {
    hide RootIds, ById;
    RootsDistinct(table, ms);
    forall v | v in roots ensures Sources(feeds, v) == {} {
    }
  }

  /** What handling one text control does to the edges. */
  lemma CollectedOneMore(ms: seq<Module>, i: nat, j: nat, roots: seq<Id>, feeds: map<Id, seq<Id>>, feeds': map<Id, seq<Id>>)
    requires i < |ms| && j < |ms[i].texts|
    requires (forall s :: s in roots <==> s in feeds) && feeds'.Keys == feeds.Keys
    requires Collected(ms, i, j, roots, feeds)
    requires var table := ById(ms);
             var cons, src := RootOf(table, ms[i].id, 0), RootOf(table, ms[i].texts[j], 0);
             feeds' == if Names(table, ms[i].texts[j]) && cons != src && src in feeds && cons !in feeds[src]
                       then feeds[src := feeds[src] + [cons]] else feeds
    ensures Collected(ms, i, j + 1, roots, feeds')
  {
    hide DrawnBefore, RootOf, ById;
    OneMore(ms, i, j);
  }

  lemma CollectedNext(ms: seq<Module>, i: nat, roots: seq<Id>, feeds: map<Id, seq<Id>>, inDeg: map<Id, nat>)
    requires i < |ms| && Collecting(ms, i, |ms[i].texts|, roots, feeds, inDeg)
    ensures Collecting(ms, i + 1, 0, roots, feeds, inDeg)
  {
    hide DrawnBefore, WellFormed, Counted;
    NextModule(ms, i);
  }

  ghost predicate Counted(roots: seq<Id>, feeds: map<Id, seq<Id>>, inDeg: map<Id, nat>) {
    inDeg.Keys == feeds.Keys && forall v :: v in roots ==> v in inDeg && inDeg[v] == |Sources(feeds, v)|
  }

  lemma OneMore(ms: seq<Module>, i: nat, j: nat)
    requires i < |ms| && j < |ms[i].texts|
    ensures forall s, c :: DrawnBefore(ms, i, j + 1, s, c) <==> DrawnBefore(ms, i, j, s, c) || Draws(ms, i, j, s, c)
  {
    hide Draws;
  }

  lemma NextModule(ms: seq<Module>, i: nat)
    requires i < |ms|
    ensures forall s, c :: DrawnBefore(ms, i + 1, 0, s, c) <==> DrawnBefore(ms, i, |ms[i].texts|, s, c)
  {
    hide Draws;
  }

  /** A new edge keeps the graph well formed. */
  lemma JoinedForm(roots: seq<Id>, feeds: map<Id, seq<Id>>, s: Id, c: Id)
    requires WellFormed(Graph(roots, feeds))
    requires s in feeds && s != c && c !in feeds[s]
    ensures WellFormed(Graph(roots, feeds[s := feeds[s] + [c]]))
  {
    hide NoDup;
    NoDupOneMore(feeds[s], c);
  }

  /** A new edge adds one source to its target and none elsewhere. */
  lemma JoinedCounts(roots: seq<Id>, feeds: map<Id, seq<Id>>, inDeg: map<Id, nat>, s: Id, c: Id)
    requires Counted(roots, feeds, inDeg) && (forall v :: v in roots <==> v in feeds) && s in feeds && c !in feeds[s]
    ensures Counted(roots, feeds[s := feeds[s] + [c]], if c in inDeg then inDeg[c := inDeg[c] + 1] else inDeg)
  {
    hide Sources;
    var feeds' := feeds[s := feeds[s] + [c]];
    var inDeg' := if c in inDeg then inDeg[c := inDeg[c] + 1] else inDeg;
    forall v | v in roots ensures v in inDeg' && inDeg'[v] == |Sources(feeds', v)| {
      SourcesJoined(feeds, s, c, v);
      if v == c {
        NotASource(feeds, s, c);
      } else {
        assert Sources(feeds, v) + {} == Sources(feeds, v);
      }
    }
    assert inDeg'.Keys == inDeg.Keys && feeds'.Keys == feeds.Keys;
  }

  lemma NotASource(feeds: map<Id, seq<Id>>, s: Id, c: Id)
    requires s in feeds && c !in feeds[s]
    ensures s !in Sources(feeds, c)
  {
  }

  lemma SourcesJoined(feeds: map<Id, seq<Id>>, s: Id, c: Id, v: Id)
    requires s in feeds
    ensures Sources(feeds[s := feeds[s] + [c]], v) == Sources(feeds, v) + if v == c then {s} else {}
  {
  }

  // ---- Walks ----

  /** A walk along edges that ends at v. */
  ghost predicate WalkTo(g: Graph, w: seq<Id>, v: Id) {
    && |w| > 0 && w[|w| - 1] == v && v in g.roots
    && forall i :: 0 <= i < |w| - 1 ==> w[i] in Sources(g.feeds, w[i + 1])
  }

  lemma WalkShorter(g: Graph, w: seq<Id>, v: Id)
    requires WellFormed(g) && WalkTo(g, w, v) && |w| > 1
    ensures w[|w| - 2] in Sources(g.feeds, v) && WalkTo(g, w[..|w| - 1], w[|w| - 2])
  {
    assert w[|w| - 2 + 1] == v;
  }

  lemma WalkLonger(g: Graph, w: seq<Id>, s: Id, v: Id)
    requires WellFormed(g) && WalkTo(g, w, s) && s in Sources(g.feeds, v) && v in g.roots
    ensures WalkTo(g, w + [v], v)
  {
  }

  /** n is the length of the longest path from a source to v, and no walk to v is longer. */
  ghost predicate LongestPath(g: Graph, v: Id, n: nat) {
    && (exists w :: WalkTo(g, w, v) && |w| == n + 1 && Sources(g.feeds, w[0]) == {})
    && (forall w :: WalkTo(g, w, v) ==> |w| <= n + 1)
  }

  /** No walk to v meets a root twice: no cycle lies upstream of v. */
  ghost predicate NoCycleAbove(g: Graph, v: Id) {
    forall w :: WalkTo(g, w, v) ==> NoDup(w)
  }

  // ---- The column loop ----

  /** The column is past those of the sources in seen. */
  ghost predicate Past(col: map<Id, nat>, seen: set<Id>, n: nat) {
    forall s :: s in seen ==> s in col && col[s] < n
  }

  /** The column is no further right than the sources in seen demand. */
  ghost predicate Reached(col: map<Id, nat>, seen: set<Id>, n: nat) {
    if seen == {} then n == 0 else exists s :: s in seen && s in col && n == col[s] + 1
  }

  ghost predicate Within(line: seq<Id>, n: nat, seen: set<Id>)
    requires n <= |line|
  {
    forall s :: s in seen ==> s in line[..n]
  }

  /** One root in the middle of the loop: line holds the roots queued so far, the first n of them
      handled; seen are the sources of v whose edge into v has been followed. */
  ghost predicate Settled(g: Graph, line: seq<Id>, n: nat, rem: nat, col: map<Id, nat>, seen: set<Id>, v: Id)
    requires n <= |line|
  {
    && v in col && seen <= Sources(g.feeds, v) && Within(line, n, seen)
    && rem == |Sources(g.feeds, v) - seen| && (v in line <==> rem == 0)
    && Past(col, seen, col[v]) && Reached(col, seen, col[v])
  }

  /** The sources of the k-th root stand before it. */
  ghost predicate Preceded(g: Graph, line: seq<Id>, k: nat)
    requires k < |line|
  {
    forall s :: s in Sources(g.feeds, line[k]) ==> s in line[..k]
  }

  ghost predicate Lined(g: Graph, line: seq<Id>, n: nat) {
    && n <= |line| && NoDup(line) && (forall v :: v in line ==> v in g.roots)
    && forall k :: 0 <= k < n ==> Preceded(g, line, k)
  }

  /** What the loop keeps. */
  ghost predicate Going(g: Graph, line: seq<Id>, n: nat, rem: map<Id, nat>, col: map<Id, nat>, seen: map<Id, set<Id>>) {
    && WellFormed(g) && Lined(g, line, n) && rem.Keys == col.Keys == seen.Keys == g.feeds.Keys
    && forall v :: v in g.feeds ==> Settled(g, line, n, rem[v], col, seen[v], v)
  }

  /** Taking the next root off the queue: all its sources have been handled. */
  lemma Dequeue(g: Graph, line: seq<Id>, n: nat, rem: map<Id, nat>, col: map<Id, nat>, seen: map<Id, set<Id>>)
    requires Going(g, line, n, rem, col, seen) && n < |line|
    ensures Going(g, line, n + 1, rem, col, seen) && line[n] in g.feeds
  {
    hide Settled, NoDup, Preceded;
    var id := line[n];
    assert id in line;
    SettledSources(g, line, n, rem[id], col, seen[id]);
    forall v | v in g.feeds ensures Settled(g, line, n + 1, rem[v], col, seen[v], v) {
      SettledLater(g, line, n, rem[v], col, seen[v], v);
    }
  }

  lemma SettledSources(g: Graph, line: seq<Id>, n: nat, rem: nat, col: map<Id, nat>, seen: set<Id>)
    requires n < |line| && Settled(g, line, n, rem, col, seen, line[n])
    ensures Preceded(g, line, n)
  {
    hide Past, Reached;
    var all := Sources(g.feeds, line[n]);
    assert line[n] in line;
    assert all - seen == {};
    assert forall s :: s in all ==> s in seen;
  }

  lemma SettledLater(g: Graph, line: seq<Id>, n: nat, rem: nat, col: map<Id, nat>, seen: set<Id>, v: Id)
    requires n < |line| && Settled(g, line, n, rem, col, seen, v)
    ensures Settled(g, line, n + 1, rem, col, seen, v)
  {
    hide Past, Reached, Sources;
    assert forall s :: s in line[..n] ==> s in line[..n + 1];
  }

  function Max(a: nat, b: nat): nat {
    if a > b then a else b
  }

  /** The root an edge leads into: count one lower, column raised past the edge's source. */
  lemma FollowInto(g: Graph, line: seq<Id>, n: nat, rem: nat, col: map<Id, nat>, seen: set<Id>, id: Id, next: Id)
    requires n <= |line| && Settled(g, line, n, rem, col, seen, next)
    requires id in line[..n] && id in col && id in Sources(g.feeds, next) && id !in seen && id != next
    ensures rem > 0 && next !in line
    ensures Settled(g, if rem == 1 then line + [next] else line, n, rem - 1,
                    col[next := Max(col[next], col[id] + 1)], seen + {id}, next)
  {
    var all := Sources(g.feeds, next);
    assert id in all - seen;
    assert all - (seen + {id}) == (all - seen) - {id};
    var line' := if rem == 1 then line + [next] else line;
    assert line'[..n] == line[..n];
    assert next !in line[..n];
    var col' := col[next := Max(col[next], col[id] + 1)];
    assert next !in seen + {id};
    if col[id] + 1 >= col[next] {
      assert id in seen + {id} && col'[next] == col'[id] + 1;
    } else if seen != {} {
      var s :| s in seen && s in col && col[next] == col[s] + 1;
      assert s in seen + {id} && col'[next] == col'[s] + 1;
    }
  }

  /** Every other root. */
  lemma FollowPast(g: Graph, line: seq<Id>, n: nat, rem: nat, col: map<Id, nat>, seen: set<Id>, v: Id,
                   line': seq<Id>, next: Id, column: nat)
    requires n <= |line| && Settled(g, line, n, rem, col, seen, v) && v != next && next !in line
    requires line' == line || line' == line + [next]
    ensures n <= |line'| && Settled(g, line', n, rem, col[next := column], seen, v)
  {
    hide Sources;
    assert line'[..n] == line[..n];
    NeverSeen(g, line, n, seen, next);
    var col' := col[next := column];
    assert forall s :: s in seen && s in col ==> col'[s] == col[s];
    if seen != {} {
      var s :| s in seen && s in col && col[v] == col[s] + 1;
      assert col'[v] == col'[s] + 1;
    }
  }

  lemma NeverSeen(g: Graph, line: seq<Id>, n: nat, seen: set<Id>, next: Id)
    requires n <= |line| && Within(line, n, seen) && next !in line
    ensures next !in seen
  {
    assert next !in line[..n];
  }

  /** Following one edge. */
  lemma Follow(g: Graph, line: seq<Id>, n: nat, rem: map<Id, nat>, col: map<Id, nat>, seen: map<Id, set<Id>>, id: Id, next: Id)
    requires Going(g, line, n, rem, col, seen)
    requires id in line[..n] && id in g.feeds && next in g.feeds[id] && next in g.feeds && id !in seen[next]
    ensures rem[next] > 0
    ensures Going(g, if rem[next] == 1 then line + [next] else line, n, rem[next := rem[next] - 1],
                  col[next := Max(col[next], col[id] + 1)], seen[next := seen[next] + {id}])
  {
    hide Settled, Max, Lined, Preceded, NoDup, WellFormed;
    LinedBound(g, line, n);
    EdgeTarget(g, id, next);
    FollowInto(g, line, n, rem[next], col, seen[next], id, next);
    var column := Max(col[next], col[id] + 1);
    var line' := if rem[next] == 1 then line + [next] else line;
    LinedLonger(g, line, n, next);
    forall v | v in g.feeds && v != next ensures Settled(g, line', n, rem[v], col[next := column], seen[v], v) {
      FollowPast(g, line, n, rem[v], col, seen[v], v, line', next, column);
    }
  }

  lemma EdgeTarget(g: Graph, s: Id, c: Id)
    requires WellFormed(g) && s in g.feeds && c in g.feeds[s] && c in g.feeds
    ensures c in g.roots && c != s && s in Sources(g.feeds, c)
  {
  }

  lemma LinedBound(g: Graph, line: seq<Id>, n: nat)
    requires Lined(g, line, n)
    ensures n <= |line|
  {
  }

  lemma LinedLonger(g: Graph, line: seq<Id>, n: nat, next: Id)
    requires Lined(g, line, n) && next !in line && next in g.roots
    ensures Lined(g, line + [next], n)
  {
    hide Sources;
    NoDupOneMore(line, next);
    forall k | 0 <= k < n ensures Preceded(g, line + [next], k) {
      assert Preceded(g, line, k) && (line + [next])[..k] == line[..k];
    }
  }

  lemma NoDupOneMore(s: seq<Id>, x: Id)
    requires NoDup(s) && x !in s
    ensures NoDup(s + [x])
  {
  }

  function Filter(ids: seq<Id>, inDeg: map<Id, nat>): (r: seq<Id>)
    requires forall id :: id in ids ==> id in inDeg
    ensures forall id :: id in r <==> id in ids && inDeg[id] == 0
    ensures NoDup(ids) ==> NoDup(r)
  {
    if ids == [] then []
    else
      var before := Filter(ids[..|ids| - 1], inDeg);
      assert ids == ids[..|ids| - 1] + [ids[|ids| - 1]];
      if inDeg[ids[|ids| - 1]] == 0 then before + [ids[|ids| - 1]] else before
  }

  lemma Begun(g: Graph, q: seq<Id>, rem: map<Id, nat>, col: map<Id, nat>, seen: map<Id, set<Id>>)
    requires WellFormed(g) && Counted(g.roots, g.feeds, rem) && q == Filter(g.roots, rem)
    requires col.Keys == seen.Keys == g.feeds.Keys
    requires forall v :: v in g.feeds ==> col[v] == 0 && seen[v] == {}
    ensures Between(g, q, 0, rem, col, seen)
  {
    hide Filter, NoDup, Sources, Settled, Preceded;
    assert q[..0] == [];
    forall v | v in g.feeds ensures Settled(g, q, 0, rem[v], col, seen[v], v) {
      SettledAtStart(g, q, rem[v], col, v);
    }
  }

  lemma SettledAtStart(g: Graph, q: seq<Id>, rem: nat, col: map<Id, nat>, v: Id)
    requires v in col && col[v] == 0 && rem == |Sources(g.feeds, v)| && (v in q <==> rem == 0)
    ensures Settled(g, q, 0, rem, col, {}, v)
  {
    hide Sources;
    assert Sources(g.feeds, v) - {} == Sources(g.feeds, v);
  }

  /** Distinct roots are no more than all roots. */
  lemma {:induction false} Fits(s: seq<Id>, roots: seq<Id>)
    requires NoDup(s) && forall v :: v in s ==> v in roots
    ensures |s| <= |roots|
  {
    var inS, all := Members(s), Members(roots);
    assert forall v :: v in inS ==> v in all;
    Smaller(inS, all);
  }

  function Members(s: seq<Id>): (m: set<Id>)
    ensures forall v :: v in m <==> v in s
    ensures |m| <= |s| && (NoDup(s) ==> |m| == |s|)
  {
    if s == [] then {}
    else
      assert s == s[..|s| - 1] + [s[|s| - 1]];
      Members(s[..|s| - 1]) + {s[|s| - 1]}
  }

  lemma Smaller(a: set<Id>, b: set<Id>)
    requires a <= b
    ensures |a| <= |b|
  {
    assert b == a + (b - a);
  }

  lemma RootKeys(g: Graph)
    requires WellFormed(g)
    ensures g.feeds.Keys == set v | v in g.roots
  {
    assert forall v :: v in g.feeds.Keys <==> v in g.roots;
  }

  lemma CountedKeys(g: Graph, inDeg: map<Id, nat>)
    requires Counted(g.roots, g.feeds, inDeg)
    ensures inDeg.Keys == g.feeds.Keys && forall id :: id in g.roots ==> id in inDeg
  {
  }

  /** Kahn's loop. order lists the roots in the order they leave the queue, each at most once. */
  method Assign(g: Graph, inDeg: map<Id, nat>) returns (col: map<Id, nat>, ghost order: seq<Id>)
    requires WellFormed(g) && Counted(g.roots, g.feeds, inDeg)
    ensures Finished(g, order, col)
  {
    hide Between, Inside, Going, FollowedAll, Counted, Finished, Max, NoDup, WellFormed, Filter, Sources, FollowedUpTo;
    col := map id | id in g.roots :: 0;
    var rem := inDeg;
    CountedKeys(g, inDeg);
    RootKeys(g);
    var q := Filter(g.roots, inDeg);
    ghost var line, n: nat := q, 0;
    ghost var seen: map<Id, set<Id>> := map id | id in g.roots :: {};
    Begun(g, q, rem, col, seen);
    while |q| > 0
      invariant n <= |line| && q == line[n..] && Between(g, line, n, rem, col, seen)
      decreases |g.roots| - n
    {
      Enter(g, line, n, rem, col, seen);
      var id := q[0];
      q := q[1..];
      n := n + 1;
      for j := 0 to |g.feeds[id]|
        invariant n <= |line| && q == line[n..] && Inside(g, line, n, id, j, rem, col, seen)
      {
        var next := g.feeds[id][j];
        InsideStep(g, line, n, id, j, rem, col, seen);
        if next in rem {
          col := col[next := Max(col[next], col[id] + 1)];
          rem := rem[next := rem[next] - 1];
          seen := seen[next := seen[next] + {id}];
          if rem[next] == 0 {
            q := q + [next];
            line := line + [next];
          }
        }
      }
      Leave(g, line, n, id, rem, col, seen);
    }
    order := line;
    Emptied(g, order, rem, col, seen);
    Ended(g, order, rem, col, seen);
  }

  /** At the head of the loop: the edges followed are those out of handled roots. */
  ghost predicate Between(g: Graph, line: seq<Id>, n: nat, rem: map<Id, nat>, col: map<Id, nat>, seen: map<Id, set<Id>>) {
    n <= |line| && Going(g, line, n, rem, col, seen) && FollowedAll(g, line[..n], seen)
  }

  /** In the inner loop: also the first j edges out of the root just taken. */
  ghost predicate Inside(g: Graph, line: seq<Id>, n: nat, id: Id, j: nat, rem: map<Id, nat>, col: map<Id, nat>, seen: map<Id, set<Id>>) {
    && 0 < n <= |line| && line[n - 1] == id && Going(g, line, n, rem, col, seen)
    && FollowedUpTo(g, line[..n - 1], id, j, seen)
  }

  lemma Emptied(g: Graph, line: seq<Id>, rem: map<Id, nat>, col: map<Id, nat>, seen: map<Id, set<Id>>)
    requires Between(g, line, |line|, rem, col, seen)
    ensures Going(g, line, |line|, rem, col, seen) && FollowedAll(g, line, seen)
  {
    hide Going, FollowedAll;
    assert line[..|line|] == line;
  }

  lemma Enter(g: Graph, line: seq<Id>, n: nat, rem: map<Id, nat>, col: map<Id, nat>, seen: map<Id, set<Id>>)
    requires Between(g, line, n, rem, col, seen) && n < |line|
    ensures n < |g.roots| && line[n] in g.feeds && Inside(g, line, n + 1, line[n], 0, rem, col, seen)
  {
    hide Going, FollowedAll, FollowedUpTo;
    Dequeue(g, line, n, rem, col, seen);
    HandledFit(g, line, n + 1, rem, col, seen);
    StartEdges(g, line[..n], line[n], seen);
  }

  lemma InsideStep(g: Graph, line: seq<Id>, n: nat, id: Id, j: nat, rem: map<Id, nat>, col: map<Id, nat>, seen: map<Id, set<Id>>)
    requires Inside(g, line, n, id, j, rem, col, seen) && id in g.feeds && j < |g.feeds[id]|
    ensures var next := g.feeds[id][j];
            if next in rem then
              && id in col && next in col && next in seen && rem[next] > 0
              && Inside(g, if rem[next] == 1 then line + [next] else line, n, id, j + 1, rem[next := rem[next] - 1],
                        col[next := Max(col[next], col[id] + 1)], seen[next := seen[next] + {id}])
            else Inside(g, line, n, id, j + 1, rem, col, seen)
  {
    hide Going, FollowedUpTo, Max;
    var next := g.feeds[id][j];
    GoingKeys(g, line, n, rem, col, seen);
    if next in rem {
      NotYetFollowed(g, line, n, rem, col, seen, id, j);
      Follow(g, line, n, rem, col, seen, id, next);
      NextEdge(g, line[..n - 1], id, j, seen);
      assert (line + [next])[..n - 1] == line[..n - 1];
    } else {
      NoRootThere(g, line[..n - 1], id, j, seen);
    }
  }

  lemma Leave(g: Graph, line: seq<Id>, n: nat, id: Id, rem: map<Id, nat>, col: map<Id, nat>, seen: map<Id, set<Id>>)
    requires id in g.feeds && Inside(g, line, n, id, |g.feeds[id]|, rem, col, seen)
    ensures Between(g, line, n, rem, col, seen)
  {
    hide Going, FollowedAll, FollowedUpTo;
    AllEdges(g, line[..n - 1], id, seen);
    assert line[..n - 1] + [id] == line[..n];
  }

  /** The edges followed are those out of handled roots. */
  ghost predicate FollowedAll(g: Graph, order: seq<Id>, seen: map<Id, set<Id>>) {
    forall v :: v in g.feeds && v in seen ==> seen[v] == Handled(g, order, v)
  }

  /** The sources of v that have left the queue. */
  ghost function Handled(g: Graph, order: seq<Id>, v: Id): set<Id> {
    set s | s in Sources(g.feeds, v) && s in order
  }

  /** Within the inner loop: also the first j edges out of the root just taken. */
  ghost predicate FollowedUpTo(g: Graph, done: seq<Id>, id: Id, j: nat, seen: map<Id, set<Id>>) {
    && id in g.feeds && j <= |g.feeds[id]|
    && forall v :: v in g.feeds && v in seen ==>
         seen[v] == Handled(g, done, v) + if v in g.feeds[id][..j] then {id} else {}
  }

  lemma StartEdges(g: Graph, done: seq<Id>, id: Id, seen: map<Id, set<Id>>)
    requires FollowedAll(g, done, seen) && id in g.feeds
    ensures FollowedUpTo(g, done, id, 0, seen)
  {
    hide Handled;
  }

  lemma NotYetFollowed(g: Graph, line: seq<Id>, n: nat, rem: map<Id, nat>, col: map<Id, nat>, seen: map<Id, set<Id>>, id: Id, j: nat)
    requires Inside(g, line, n, id, j, rem, col, seen) && id in g.feeds && j < |g.feeds[id]|
    ensures var next := g.feeds[id][j];
            next in g.feeds ==> next in seen && id !in seen[next] && id in line[..n]
  {
    hide Settled, Preceded, Sources;
    var next := g.feeds[id][j];
    assert next !in g.feeds[id][..j];
    assert line[..n][n - 1] == id;
    assert id !in line[..n - 1];
  }

  lemma NextEdge(g: Graph, done: seq<Id>, id: Id, j: nat, seen: map<Id, set<Id>>)
    requires FollowedUpTo(g, done, id, j, seen) && j < |g.feeds[id]| && g.feeds[id][j] in seen
    ensures var next := g.feeds[id][j];
            FollowedUpTo(g, done, id, j + 1, seen[next := seen[next] + {id}])
  {
    hide Handled;
    assert g.feeds[id][..j + 1] == g.feeds[id][..j] + [g.feeds[id][j]];
  }

  /** An edge that leads to no root changes nothing. */
  lemma NoRootThere(g: Graph, done: seq<Id>, id: Id, j: nat, seen: map<Id, set<Id>>)
    requires FollowedUpTo(g, done, id, j, seen) && j < |g.feeds[id]| && g.feeds[id][j] !in g.feeds
    ensures FollowedUpTo(g, done, id, j + 1, seen)
  {
    hide Handled;
    assert g.feeds[id][..j + 1] == g.feeds[id][..j] + [g.feeds[id][j]];
  }

  lemma AllEdges(g: Graph, done: seq<Id>, id: Id, seen: map<Id, set<Id>>)
    requires id in g.feeds && FollowedUpTo(g, done, id, |g.feeds[id]|, seen)
    ensures FollowedAll(g, done + [id], seen)
  {
    assert g.feeds[id][..|g.feeds[id]|] == g.feeds[id];
    forall v | v in g.feeds && v in seen ensures seen[v] == Handled(g, done + [id], v) {
    }
  }

  lemma HandledFit(g: Graph, line: seq<Id>, n: nat, rem: map<Id, nat>, col: map<Id, nat>, seen: map<Id, set<Id>>)
    requires Going(g, line, n, rem, col, seen)
    ensures n <= |g.roots|
  {
    hide Settled, Preceded;
    Fits(line, g.roots);
  }

  lemma GoingKeys(g: Graph, line: seq<Id>, n: nat, rem: map<Id, nat>, col: map<Id, nat>, seen: map<Id, set<Id>>)
    requires Going(g, line, n, rem, col, seen)
    ensures rem.Keys == col.Keys == seen.Keys == g.feeds.Keys && n <= |line|
  {
  }

  /** Some source of v never left the queue. */
  ghost predicate Open(g: Graph, order: seq<Id>, v: Id) {
    exists s :: s in Sources(g.feeds, v) && s !in order
  }

  /** What the loop leaves behind: handled roots stand behind all their sources, the others each
      wait for one, and every column is one past the furthest handled source. */
  ghost predicate Finished(g: Graph, order: seq<Id>, col: map<Id, nat>) {
    && WellFormed(g) && Lined(g, order, |order|) && col.Keys == g.feeds.Keys
    && (forall v :: v in g.feeds ==> (v in order || Open(g, order, v)))
    && (forall v :: v in g.feeds ==> Past(col, Handled(g, order, v), col[v]) && Reached(col, Handled(g, order, v), col[v]))
  }

  lemma Ended(g: Graph, order: seq<Id>, rem: map<Id, nat>, col: map<Id, nat>, seen: map<Id, set<Id>>)
    requires Going(g, order, |order|, rem, col, seen) && FollowedAll(g, order, seen)
    ensures Finished(g, order, col)
  {
    hide Settled, Open, Past, Reached, Handled, NoDup, Preceded;
    forall v | v in g.feeds
      ensures v in order || Open(g, order, v)
      ensures Past(col, Handled(g, order, v), col[v]) && Reached(col, Handled(g, order, v), col[v])
    {
      SettledEnds(g, order, rem[v], col, seen[v], v);
    }
  }

  lemma SettledEnds(g: Graph, order: seq<Id>, rem: nat, col: map<Id, nat>, seen: set<Id>, v: Id)
    requires Settled(g, order, |order|, rem, col, seen, v) && seen == Handled(g, order, v)
    ensures v in order || Open(g, order, v)
    ensures Past(col, Handled(g, order, v), col[v]) && Reached(col, Handled(g, order, v), col[v])
  {
    hide Past, Reached;
    if v !in order {
      var open := Sources(g.feeds, v) - seen;
      assert open != {};
      var s :| s in open;
    }
  }

  // ---- What the columns mean ----

  /** A walk to a handled root passes handled roots only, each once, and is no longer than the
      root's column. */
  lemma {:induction false} WalksAreShort(g: Graph, order: seq<Id>, col: map<Id, nat>, w: seq<Id>, k: nat)
    requires Finished(g, order, col) && k < |order| && WalkTo(g, w, order[k]) && order[k] in col
    ensures |w| <= col[order[k]] + 1
    ensures NoDup(w) && forall v :: v in w ==> v in order[..k + 1]
    decreases |w|
  {
    hide Reached, Open, Lined, WalkTo;
    var v := order[k];
    WalkNonempty(g, w, v);
    assert order[..k + 1][k] == v;
    if |w| > 1 {
      WalkShorter(g, w, v);
      var s, shorter := w[|w| - 2], w[..|w| - 1];
      var j := SourceBefore(g, order, col, k, s);
      WalksAreShort(g, order, col, shorter, j);
      assert w == shorter + [v];
      assert order[..j + 1] <= order[..k + 1];
      NotBefore(g, order, j, k);
      NoDupOneMore(shorter, v);
    } else {
      assert w == [v];
    }
  }

  lemma WalkNonempty(g: Graph, w: seq<Id>, v: Id)
    requires WalkTo(g, w, v)
    ensures |w| > 0 && w[|w| - 1] == v
  {
  }

  lemma NotBefore(g: Graph, order: seq<Id>, j: nat, k: nat)
    requires Lined(g, order, |order|) && j < k < |order|
    ensures order[k] !in order[..j + 1]
  {
    hide Preceded;
  }

  lemma SourceBefore(g: Graph, order: seq<Id>, col: map<Id, nat>, k: nat, s: Id) returns (j: nat)
    requires Finished(g, order, col) && k < |order| && s in Sources(g.feeds, order[k])
    ensures j < k && order[j] == s && order[j] in col && order[k] in col && col[s] < col[order[k]]
  {
    hide Reached, Open, NoDup;
    assert Preceded(g, order, k);
    assert s in order[..k];
    j :| 0 <= j < k && order[..k][j] == s;
    assert s in Handled(g, order, order[k]);
  }

  /** Some walk from a source is as long as the column says. */
  lemma {:induction false} WalkOfColumn(g: Graph, order: seq<Id>, col: map<Id, nat>, k: nat) returns (w: seq<Id>)
    requires Finished(g, order, col) && k < |order| && order[k] in col
    ensures WalkTo(g, w, order[k]) && |w| == col[order[k]] + 1 && Sources(g.feeds, w[0]) == {}
    decreases k
  {
    hide Open, Past, Sources, NoDup, Finished;
    var v := order[k];
    InRoots(g, order, col, k);
    var s := FurthestSource(g, order, col, v);
    if s == None {
      w := [v];
    } else {
      var j := SourceBefore(g, order, col, k, s.value);
      w := WalkOfColumn(g, order, col, j);
      WalkLonger(g, w, s.value, v);
      w := w + [v];
    }
  }

  lemma InRoots(g: Graph, order: seq<Id>, col: map<Id, nat>, k: nat)
    requires Finished(g, order, col) && k < |order|
    ensures order[k] in g.roots && Preceded(g, order, k) && WellFormed(g)
  {
    hide Open, Past, Reached, NoDup;
  }

  /** The source a handled root's column was set from, if it has any. */
  lemma FurthestSource(g: Graph, order: seq<Id>, col: map<Id, nat>, v: Id) returns (s: Option<Id>)
    requires Finished(g, order, col) && v in order && v in col
    ensures s == None ==> Sources(g.feeds, v) == {} && col[v] == 0
    ensures s.Some? ==> s.value in Sources(g.feeds, v) && s.value in col && col[v] == col[s.value] + 1
  {
    hide Open, Past, NoDup;
    var k :| 0 <= k < |order| && order[k] == v;
    var all := Handled(g, order, v);
    assert Preceded(g, order, k);
    assert all == Sources(g.feeds, v);
    assert v in g.feeds;
    if all == {} {
      s := None;
    } else {
      var x :| x in all && x in col && col[v] == col[x] + 1;
      s := Some(x);
    }
  }

  /** A root that never leaves the queue has walks of every length. */
  lemma {:induction false} StuckWalk(g: Graph, order: seq<Id>, col: map<Id, nat>, v: Id, n: nat) returns (w: seq<Id>)
    requires Finished(g, order, col) && v in g.roots && v !in order
    ensures WalkTo(g, w, v) && |w| == n + 1
    decreases n
  {
    hide Finished, NoDup;
    if n == 0 {
      w := [v];
    } else {
      var s := OpenSource(g, order, col, v);
      w := StuckWalk(g, order, col, s, n - 1);
      WalkLonger(g, w, s, v);
      w := w + [v];
    }
  }

  lemma OpenSource(g: Graph, order: seq<Id>, col: map<Id, nat>, v: Id) returns (s: Id)
    requires Finished(g, order, col) && v in g.roots && v !in order
    ensures s in Sources(g.feeds, v) && s !in order && s in g.roots && WellFormed(g)
  {
    hide Past, Reached, Lined, NoDup;
    assert v in g.feeds && Open(g, order, v);
    s :| s in Sources(g.feeds, v) && s !in order;
  }

  lemma WalkInRoots(g: Graph, w: seq<Id>, v: Id)
    requires WellFormed(g) && WalkTo(g, w, v)
    ensures forall x :: x in w ==> x in g.roots
  {
    forall i | 0 <= i < |w| ensures w[i] in g.roots {
      if i < |w| - 1 {
        assert w[i] in Sources(g.feeds, w[i + 1]);
      }
    }
  }

  lemma FinishedKeys(g: Graph, order: seq<Id>, col: map<Id, nat>)
    requires Finished(g, order, col)
    ensures WellFormed(g) && col.Keys == g.feeds.Keys
  {
  }

  /** A root is handled exactly when no cycle feeds it; then its column is the length of its
      longest path from a source. */
  lemma ColumnsAreLongestPaths(g: Graph, order: seq<Id>, col: map<Id, nat>, v: Id)
    requires Finished(g, order, col) && v in g.roots && v in col
    ensures v in order <==> NoCycleAbove(g, v)
    ensures v in order ==> LongestPath(g, v, col[v])
  {
    hide Finished, Sources, NoDup, WalkTo;
    assert v in col && WellFormed(g) by { FinishedKeys(g, order, col); }
    if v in order {
      var k :| 0 <= k < |order| && order[k] == v;
      forall w | WalkTo(g, w, v) ensures NoDup(w) && |w| <= col[v] + 1 {
        WalksAreShort(g, order, col, w, k);
      }
      var longest := WalkOfColumn(g, order, col, k);
    } else {
      var w := StuckWalk(g, order, col, v, |g.roots|);
      WalkInRoots(g, w, v);
      if NoDup(w) {
        Fits(w, g.roots);
      }
    }
  }

  /** Whatever the graph, an edge out of a handled root goes right. */
  lemma HandledGoesRight(g: Graph, order: seq<Id>, col: map<Id, nat>, s: Id, c: Id)
    requires Finished(g, order, col) && s in order && s in g.feeds && c in g.feeds[s] && c in g.feeds
    ensures s in col && c in col && col[s] < col[c]
  {
    hide Open, Reached, Lined, NoDup;
    assert s in Handled(g, order, c);
  }

  /** Without cycles every root is handled, its column is its longest path from a source, and
      every edge goes to a column further right. */
  lemma AcyclicGoesRight(g: Graph, order: seq<Id>, col: map<Id, nat>)
    requires Finished(g, order, col) && forall v :: v in g.roots ==> NoCycleAbove(g, v)
    ensures forall v :: v in g.roots ==> v in order && v in col && LongestPath(g, v, col[v])
    ensures forall s, c :: s in g.feeds && c in g.feeds[s] && c in g.feeds ==> s in col && c in col && col[s] < col[c]
  {
    hide Finished, NoCycleAbove, LongestPath;
    FinishedKeys(g, order, col);
    forall v | v in g.roots ensures v in order && v in col && LongestPath(g, v, col[v]) {
      ColumnsAreLongestPaths(g, order, col, v);
    }
    forall s, c | s in g.feeds && c in g.feeds[s] && c in g.feeds ensures s in col && c in col && col[s] < col[c] {
      HandledGoesRight(g, order, col, s, c);
    }
  }

  /** Edge collection and columns together, as the page computes them. */
  method Layout(ms: seq<Module>) returns (g: Graph, col: map<Id, nat>, ghost order: seq<Id>)
    requires UniqueIds(ms)
    ensures Finished(g, order, col) && g.roots == RootIds(ById(ms), ms) && col.Keys == g.feeds.Keys
    ensures WellFormed(g) && GraphOf(ms, g)
    ensures forall v :: v in g.roots && NoCycleAbove(g, v) ==> LongestPath(g, v, col[v])
  {
    hide Finished, NoCycleAbove, LongestPath, GraphOf, Sources;
    var inDeg;
    g, inDeg := Collect(ms);
    col, order := Assign(g, inDeg);
    FinishedKeys(g, order, col);
    forall v | v in g.roots && NoCycleAbove(g, v) ensures LongestPath(g, v, col[v]) {
      ColumnsAreLongestPaths(g, order, col, v);
    }
  }
}
