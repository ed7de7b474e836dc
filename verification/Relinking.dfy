/** The second pass of the loader, on trees: hanging listed modules one by one under their
    saved parents rebuilds the saved tree.  */
module Relinking {
  import opened Forests
  import opened ForestOps
  import opened MoonModules
  import opened SavedLists

  /** A saved tree, its saved list, the counterpart of each listed module among the present
      modules `ms`, and the list index of its parent (or -1). */
  datatype Plan = Plan(tree: Forest<MoonModule>, saved: seq<MoonModule>, twin: seq<MoonModule>,
                       up: seq<int>, ms: seq<MoonModule>)
  {
    ghost predicate Ready() {
      && Distinct(tree) && saved == Saved(tree) && |twin| == |up| == |saved|
      && NoDup(ms) && NoDup(saved) && NoDup(twin)
      && (forall j :: 0 <= j < |saved| ==> twin[j] in ms && twin[j].id == saved[j].id)
      && (forall j :: 0 <= j < |saved| ==>
            && -1 <= up[j] < |saved|
            && ParentOf(tree, saved[j]) == (if up[j] < 0 then None else Some(saved[up[j]]))
            && |KidsOf(tree, saved[j])| <= MAX_CHILDREN)
    }

    /** The children of entry j among the first k entries. */
    ghost function KidsSoFar(j: nat, k: nat): seq<MoonModule>
      requires j < |saved| && k <= |saved|
    {
      Select(saved[..k], Elems(KidsOf(tree, saved[j])))
    }

    /** g is the tree after the first k entries have been relinked. */
    ghost predicate Rebuilt(k: nat, g: Forest<MoonModule>)
      requires |twin| == |up| == |saved| && k <= |saved|
      requires forall j :: 0 <= j < |saved| ==> up[j] < |saved|
    {
      && Distinct(g) && Nodes(g) == Elems(ms) && Roots(g) == Select(ms, Elems(Roots(g)))
      && (forall j :: 0 <= j < |saved| ==> IdsOf(KidsOf(g, twin[j])) == IdsOf(KidsSoFar(j, k)))
      && (forall j :: 0 <= j < |saved| ==>
            ParentOf(g, twin[j]) == if j < k && up[j] >= 0 then Some(twin[up[j]]) else None)
      && (forall y :: y in ms && y !in twin ==> KidsOf(g, y) == [] && ParentOf(g, y) == None)
    }

    /** The tree after the first k entries have been relinked, starting from g. */
    ghost function Relinked(g: Forest<MoonModule>, k: nat): Forest<MoonModule>
      requires |twin| == |up| == |saved| && k <= |saved|
      requires forall j :: 0 <= j < |saved| ==> up[j] < |saved|
    {
      if k == 0 then g else Next(Relinked(g, k - 1), k - 1)
    }

    /** Entry k hung under its parent, if it has one. */
    ghost function Next(g: Forest<MoonModule>, k: nat): Forest<MoonModule>
      requires |twin| == |up| == |saved| && k < |saved|
      requires forall j :: 0 <= j < |saved| ==> up[j] < |saved|
    {
      if up[k] < 0 then g else Move(g, twin[k], twin[up[k]])
    }
  }

  lemma SelectNext<T>(s: seq<T>, k: nat, keep: set<T>)
    requires k < |s|
    ensures Select(s[..k + 1], keep) == Select(s[..k], keep) + (if s[k] in keep then [s[k]] else [])
  {
    assert s[..k + 1] == s[..k] + [s[k]];
    SelectConcat(s[..k], [s[k]], keep);
  }

  lemma SelectHead<T>(s: seq<T>, k: nat, keep: set<T>)
    requires k <= |s|
    ensures |Select(s[..k], keep)| <= |Select(s, keep)|
  {
    assert s == s[..k] + s[k..];
    SelectConcat(s[..k], s[k..], keep);
  }

  /** Entry k joins the saved prefix of the children of its parent and of no other module. */
  lemma EntryJoins(plan: Plan, k: nat, j: nat)
    requires plan.Ready() && k < |plan.saved| && j < |plan.saved|
    ensures plan.KidsSoFar(j, k + 1) == plan.KidsSoFar(j, k) + (if plan.up[k] == j then [plan.saved[k]] else [])
  {
    var f, saved := plan.tree, plan.saved;
    SavedNodes(f);
    assert saved[j] in Elems(saved);
    ParentChildInverse(f, saved[j], saved[k]);
    SelectNext(saved, k, Elems(KidsOf(f, saved[j])));
    assert plan.up[k] >= 0 ==> (saved[plan.up[k]] == saved[j] <==> plan.up[k] == j);
  }

  /** Before entry k is relinked, its module is a childless root. */
  lemma EntryIsLeaf(plan: Plan, k: nat, g: Forest<MoonModule>)
    requires plan.Ready() && k < |plan.saved| && plan.Rebuilt(k, g)
    ensures SubOf(g, plan.twin[k]) == Empty && ParentOf(g, plan.twin[k]) == None
    ensures plan.twin[k] in Nodes(g) && Nodes(TreeOf(g, plan.twin[k])) == {plan.twin[k]}
  {
    var f, saved, m := plan.tree, plan.saved, plan.twin[k];
    SavedParentFirst(f, k);
    RootsInNodes(SubOf(f, saved[k]));
    SelectNone(saved[..k], Elems(KidsOf(f, saved[k])));
    assert |IdsOf(KidsOf(g, m))| == |plan.KidsSoFar(k, k)| == 0;
    RootsInNodes(SubOf(g, m));
    assert m in Elems(plan.ms);
  }

  /** The parent of entry k has room for it. */
  lemma ParentHasRoom(plan: Plan, k: nat, g: Forest<MoonModule>)
    requires plan.Ready() && k < |plan.saved| && plan.Rebuilt(k, g) && plan.up[k] >= 0
    ensures |KidsOf(g, plan.twin[plan.up[k]])| < MAX_CHILDREN
    ensures plan.twin[plan.up[k]] in Nodes(g) && plan.twin[plan.up[k]] != plan.twin[k]
  {
    var f, saved, q := plan.tree, plan.saved, plan.up[k];
    EntryJoins(plan, k, q);
    SelectHead(saved, k + 1, Elems(KidsOf(f, saved[q])));
    SavedKids(f, saved[q]);
    assert |IdsOf(KidsOf(g, plan.twin[q]))| == |plan.KidsSoFar(q, k)|;
    assert plan.twin[q] in Elems(plan.ms);
    ParentInside(f, saved[k]);
  }

  /** Moving a loose leaf adds it at the end of the new parent's children and nothing else. */
  lemma LooseLeafMoved(g: Forest<MoonModule>, m: MoonModule, p: MoonModule, y: MoonModule)
    requires Distinct(g) && m in Nodes(g) && p in Nodes(g) && y in Nodes(g) && p !in Nodes(TreeOf(g, m))
    requires ParentOf(g, m) == None
    ensures KidsOf(Move(g, m, p), y) == KidsOf(g, y) + (if y == p then [m] else [])
    ensures ParentOf(Move(g, m, p), y) == if y == m then Some(p) else ParentOf(g, y)
  {
    MoveLinks(g, m, p, y);
    ParentChildInverse(g, y, m);
    WithoutAbsent(KidsOf(g, y), m);
  }

  lemma {:induction false} SelectTwice<T>(s: seq<T>, a: set<T>, b: set<T>)
    requires b <= a
    ensures Select(Select(s, a), b) == Select(s, b)
  {
    if s != [] {
      SelectTwice(s[1..], a, b);
      SelectConcat(if s[0] in a then [s[0]] else [], Select(s[1..], a), b);
    }
  }

  lemma MovedRoots(g: Forest<MoonModule>, m: MoonModule, p: MoonModule, ms: seq<MoonModule>)
    requires Distinct(g) && m in Nodes(g) && p in Nodes(g) && p !in Nodes(TreeOf(g, m)) && ParentOf(g, m) == None
    requires Roots(g) == Select(ms, Elems(Roots(g)))
    ensures Roots(Move(g, m, p)) == Select(ms, Elems(Roots(Move(g, m, p))))
  {
    PruneNodes(g, m);
    SubOfNodes(g, m);
    assert Nodes(TreeOf(g, m)) == {m} + Nodes(SubOf(g, m));
    GraftNodes(Prune(g, m), p, TreeOf(g, m));
    var r := Elems(Roots(g));
    ElemsWithout(Roots(g), m);
    SelectWithoutIn(Roots(g), r - {m}, m);
    SelectTwice(ms, r, r - {m});
  }

  lemma IdsAppend(s: seq<MoonModule>, m: MoonModule)
    ensures IdsOf(s + [m]) == IdsOf(s) + [m.id]
  {
  }

  /** Entry k changes the children of its parent alone, by one appended module. */
  lemma KidsAfterEntry(plan: Plan, k: nat, g: Forest<MoonModule>, j: nat)
    requires plan.Ready() && k < |plan.saved| && plan.Rebuilt(k, g) && plan.up[k] >= 0 && j < |plan.saved|
    ensures IdsOf(KidsOf(Move(g, plan.twin[k], plan.twin[plan.up[k]]), plan.twin[j])) == IdsOf(plan.KidsSoFar(j, k + 1))
    ensures ParentOf(Move(g, plan.twin[k], plan.twin[plan.up[k]]), plan.twin[j]) ==
            if j <= k && plan.up[j] >= 0 then Some(plan.twin[plan.up[j]]) else None
  {
    var m, p, y := plan.twin[k], plan.twin[plan.up[k]], plan.twin[j];
    EntryIsLeaf(plan, k, g);
    ParentHasRoom(plan, k, g);
    assert y in Elems(plan.ms);
    LooseLeafMoved(g, m, p, y);
    EntryJoins(plan, k, j);
    assert y == p <==> j == plan.up[k];
    assert y == m <==> j == k;
    IdsAppend(KidsOf(g, y), m);
    IdsAppend(plan.KidsSoFar(j, k), plan.saved[k]);
    NilMid(KidsOf(g, y), []);
    NilMid(plan.KidsSoFar(j, k), []);
  }

  lemma NestedEntry(plan: Plan, k: nat, g: Forest<MoonModule>)
    requires plan.Ready() && k < |plan.saved| && plan.Rebuilt(k, g) && plan.up[k] >= 0
    ensures plan.Rebuilt(k + 1, Move(g, plan.twin[k], plan.twin[plan.up[k]]))
  {
    hide Select, Distinct, SubOf, ParentOf, Roots, Move, IdsOf;
    var m, p := plan.twin[k], plan.twin[plan.up[k]];
    EntryIsLeaf(plan, k, g);
    ParentHasRoom(plan, k, g);
    MoveNodes(g, m, p);
    MovedRoots(g, m, p, plan.ms);
    forall j | 0 <= j < |plan.saved|
      ensures IdsOf(KidsOf(Move(g, m, p), plan.twin[j])) == IdsOf(plan.KidsSoFar(j, k + 1))
      ensures ParentOf(Move(g, m, p), plan.twin[j]) == if j <= k && plan.up[j] >= 0 then Some(plan.twin[plan.up[j]]) else None
    {
      KidsAfterEntry(plan, k, g, j);
    }
    forall y | y in plan.ms && y !in plan.twin
      ensures KidsOf(Move(g, m, p), y) == [] && ParentOf(Move(g, m, p), y) == None
    {
      assert y in Elems(plan.ms);
      LooseLeafMoved(g, m, p, y);
    }
  }

  lemma RootEntry(plan: Plan, k: nat, g: Forest<MoonModule>)
    requires plan.Ready() && k < |plan.saved| && plan.Rebuilt(k, g) && plan.up[k] < 0
    ensures plan.Rebuilt(k + 1, g)
  {
    hide Select, Elems, Nodes, Distinct, SubOf, ParentOf, Roots, IdsOf;
    forall j | 0 <= j < |plan.saved| ensures plan.KidsSoFar(j, k + 1) == plan.KidsSoFar(j, k) {
      EntryJoins(plan, k, j);
      NilMid(plan.KidsSoFar(j, k), []);
    }
  }

  lemma NextIsRebuilt(plan: Plan, k: nat, g: Forest<MoonModule>)
    requires plan.Ready() && k < |plan.saved| && plan.Rebuilt(k, g)
    ensures plan.Rebuilt(k + 1, plan.Next(g, k))
  {
    hide Select, Elems, Nodes, Distinct, SubOf, ParentOf, Roots, Move, IdsOf, plan.KidsSoFar;
    if plan.up[k] < 0 {
      RootEntry(plan, k, g);
    } else {
      NestedEntry(plan, k, g);
    }
  }

  /** Relinking entry after entry rebuilds every child list, every parent link and the order
      of the top level. */
  lemma {:induction false} RelinkedIsRebuilt(plan: Plan, g: Forest<MoonModule>, k: nat)
    requires plan.Ready() && plan.Rebuilt(0, g) && k <= |plan.saved|
    ensures plan.Rebuilt(k, plan.Relinked(g, k))
  {
    hide plan.Ready, plan.Rebuilt, plan.KidsSoFar, plan.Next;
    ReadySizes(plan);
    if k > 0 {
      RelinkedIsRebuilt(plan, g, k - 1);
      NextIsRebuilt(plan, k - 1, plan.Relinked(g, k - 1));
    }
  }

  lemma ReadySizes(plan: Plan)
    requires plan.Ready()
    ensures |plan.twin| == |plan.up| == |plan.saved| && forall j :: 0 <= j < |plan.saved| ==> plan.up[j] < |plan.saved|
  {
  }
}
