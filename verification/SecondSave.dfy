/** Saving again after a reload: when the second list is the first.  */
module SecondSaves {
  import opened Forests
  import opened ForestOps
  import opened MoonModules
  import opened ModuleManagers
  import opened SavedLists
  import opened Relinking
  import opened StateStores

  /** State stores have nothing nested below them. */
  ghost predicate StoresAreLeaves(f: Forest<MoonModule>) {
    forall m :: m in Nodes(f) && m.typ == STORE_TYPE ==> SubOf(f, m) == Empty
  }

  // ---- Trees alike in their saved part ----

  /** The ids of the saved modules among s. */
  ghost function SavedIds(f: Forest<MoonModule>, s: seq<MoonModule>): seq<string> {
    IdsOf(Select(s, Savable(f)))
  }

  /** Modules of the same id have saved children of the same ids in the same order. */
  ghost predicate AlikeAt(f: Forest<MoonModule>, g: Forest<MoonModule>, x: MoonModule, y: MoonModule) {
    x.id == y.id ==> SavedIds(f, KidsOf(f, x)) == SavedIds(g, KidsOf(g, y))
  }

  ghost predicate Alike(f: Forest<MoonModule>, g: Forest<MoonModule>) {
    && Distinct(f) && Distinct(g) && StoresAreLeaves(f) && StoresAreLeaves(g)
    && forall x, y :: x in Savable(f) && y in Savable(g) ==> AlikeAt(f, g, x, y)
  }

  /** h is a stretch of siblings of f with everything below them. */
  ghost predicate Stretch(f: Forest<MoonModule>, h: Forest<MoonModule>) {
    && Distinct(h) && Nodes(h) <= Nodes(f)
    && forall y :: y in Nodes(h) ==> SubOf(f, y) == SubOf(h, y)
  }

  lemma StretchParts(f: Forest<MoonModule>, h: Forest<MoonModule>)
    requires Stretch(f, h) && h.Grow?
    ensures Stretch(f, h.kids) && Stretch(f, h.rest) && SubOf(f, h.node) == h.kids && h.node in Nodes(f)
  {
  }

  lemma SavedIdsConcat(f: Forest<MoonModule>, a: seq<MoonModule>, b: seq<MoonModule>)
    ensures SavedIds(f, a + b) == SavedIds(f, a) + SavedIds(f, b)
  {
    SelectConcat(a, b, Savable(f));
    var s, t := Select(a, Savable(f)), Select(b, Savable(f));
    assert IdsOf(s + t) == IdsOf(s) + IdsOf(t);
  }

  lemma SavedIdsOne(f: Forest<MoonModule>, m: MoonModule)
    requires m in Nodes(f)
    ensures SavedIds(f, [m]) == if m.typ == STORE_TYPE then [] else [m.id]
  {
    if m in Savable(f) {
      SelectAll([m], Savable(f));
    } else {
      SelectNone([m], Savable(f));
    }
  }

  lemma RootIds(f: Forest<MoonModule>, h: Forest<MoonModule>)
    requires h.Grow? && h.node in Nodes(f)
    ensures SavedIds(f, Roots(h)) == (if h.node.typ == STORE_TYPE then [] else [h.node.id]) + SavedIds(f, Roots(h.rest))
  {
    SavedIdsConcat(f, [h.node], Roots(h.rest));
    SavedIdsOne(f, h.node);
  }

  lemma PreIds(f: Forest<MoonModule>, h: Forest<MoonModule>)
    requires h.Grow? && h.node in Nodes(f)
    ensures SavedIds(f, Pre(h)) ==
            (if h.node.typ == STORE_TYPE then [] else [h.node.id]) + SavedIds(f, Pre(h.kids)) + SavedIds(f, Pre(h.rest))
  {
    SavedIdsConcat(f, [h.node] + Pre(h.kids), Pre(h.rest));
    SavedIdsConcat(f, [h.node], Pre(h.kids));
    SavedIdsOne(f, h.node);
  }

  /** A state store at the head contributes nothing. */
  lemma StoreSkipped(f: Forest<MoonModule>, h: Forest<MoonModule>)
    requires StoresAreLeaves(f) && Stretch(f, h) && h.Grow? && h.node.typ == STORE_TYPE
    ensures SavedIds(f, Roots(h)) == SavedIds(f, Roots(h.rest)) && SavedIds(f, Pre(h)) == SavedIds(f, Pre(h.rest))
  {
    StretchParts(f, h);
    RootIds(f, h);
    PreIds(f, h);
    assert SavedIds(f, Pre(h.kids)) == [];
  }

  /** Equal saved siblings have equal saved depth-first orders. */
  lemma {:induction false} SameOrder(f: Forest<MoonModule>, g: Forest<MoonModule>, h: Forest<MoonModule>, k: Forest<MoonModule>)
    requires Alike(f, g) && Stretch(f, h) && Stretch(g, k)
    requires SavedIds(f, Roots(h)) == SavedIds(g, Roots(k))
    ensures SavedIds(f, Pre(h)) == SavedIds(g, Pre(k))
    decreases h, k
  {
    hide Select, IdsOf, Distinct, SavedIds, AlikeAt;
    if h.Grow? && h.node.typ == STORE_TYPE {
      StretchParts(f, h);
      StoreSkipped(f, h);
      SameOrder(f, g, h.rest, k);
    } else if k.Grow? && k.node.typ == STORE_TYPE {
      StretchParts(g, k);
      StoreSkipped(g, k);
      SameOrder(f, g, h, k.rest);
    } else {
      SavedIdsNone(f);
      SavedIdsNone(g);
      if h.Grow? {
        StretchParts(f, h);
        RootIds(f, h);
        PreIds(f, h);
      }
      if k.Grow? {
        StretchParts(g, k);
        RootIds(g, k);
        PreIds(g, k);
      }
      if h.Grow? && k.Grow? {
        HeadsEqual(h.node.id, SavedIds(f, Roots(h.rest)), k.node.id, SavedIds(g, Roots(k.rest)));
        KidsAlike(f, g, h.node, k.node);
        SameOrder(f, g, h.kids, k.kids);
        SameOrder(f, g, h.rest, k.rest);
      }
    }
  }

  lemma KidsAlike(f: Forest<MoonModule>, g: Forest<MoonModule>, x: MoonModule, y: MoonModule)
    requires Alike(f, g) && x in Nodes(f) && y in Nodes(g) && x.typ != STORE_TYPE && y.typ != STORE_TYPE && x.id == y.id
    ensures SavedIds(f, Roots(SubOf(f, x))) == SavedIds(g, Roots(SubOf(g, y)))
  {
    assert x in Savable(f) && y in Savable(g);
    assert AlikeAt(f, g, x, y);
  }

  lemma SavedIdsNone(f: Forest<MoonModule>)
    ensures SavedIds(f, []) == []
  {
  }

  lemma HeadsEqual(a: string, s: seq<string>, b: string, t: seq<string>)
    requires [a] + s == [b] + t
    ensures a == b && s == t
  {
    assert ([a] + s)[0] == a && ([a] + s)[1..] == s;
    assert ([b] + t)[0] == b && ([b] + t)[1..] == t;
  }

  // ---- The reloaded tree ----

  /** A reloaded tree over the modules ms, as the loader leaves it. */
  ghost predicate Loaded(plan: Plan, g: Forest<MoonModule>) {
    && plan.Ready() && plan.Rebuilt(|plan.saved|, g) && UniqueIds(plan.ms) && TypesAgree(plan.tree, plan.ms)
    && StoresAreLeaves(plan.tree)
  }

  /** A module with a saved id is that entry's counterpart. */
  lemma TwinById(plan: Plan, g: Forest<MoonModule>, j: nat, y: MoonModule)
    requires Loaded(plan, g) && j < |plan.saved| && y in Nodes(g) && y.id == plan.saved[j].id
    ensures y == plan.twin[j] && y.typ == plan.saved[j].typ && y.typ != STORE_TYPE
  {
    assert y in Elems(plan.ms);
    assert plan.saved[j] in plan.saved;
    SavedNodes(plan.tree);
    assert plan.saved[j] in Elems(plan.saved);
  }

  lemma TwinInTree(plan: Plan, g: Forest<MoonModule>, j: nat)
    requires Loaded(plan, g) && j < |plan.saved|
    ensures plan.twin[j] in Nodes(g) && plan.twin[j] in Savable(g)
  {
    assert plan.twin[j] in Elems(plan.ms);
    TwinById(plan, g, j, plan.twin[j]);
  }

  /** Modules that are no counterpart are childless roots. */
  lemma NoTwin(plan: Plan, g: Forest<MoonModule>, y: MoonModule)
    requires Loaded(plan, g) && y in Nodes(g) && y !in plan.twin
    ensures SubOf(g, y) == Empty && ParentOf(g, y) == None && y in Roots(g)
  {
    assert y in Elems(plan.ms);
    RootsInNodes(SubOf(g, y));
    ParentlessAreRoots(g, y);
  }

  lemma SavedAt(f: Forest<MoonModule>, x: MoonModule) returns (j: nat)
    requires x in Savable(f)
    ensures j < |Saved(f)| && Saved(f)[j] == x
  {
    SavedNodes(f);
    assert x in Elems(Saved(f));
    j :| 0 <= j < |Saved(f)| && Saved(f)[j] == x;
  }

  /** All children of a reloaded module are counterparts, hence saved. */
  lemma KidsAreSaved(plan: Plan, g: Forest<MoonModule>, y: MoonModule)
    requires Loaded(plan, g) && y in Nodes(g)
    ensures SavedIds(g, KidsOf(g, y)) == IdsOf(KidsOf(g, y))
  {
    SubOfNodes(g, y);
    RootsInNodes(SubOf(g, y));
    forall c | c in Elems(KidsOf(g, y)) ensures c in Savable(g) {
      ParentChildInverse(g, y, c);
      if c !in plan.twin {
        NoTwin(plan, g, c);
      }
      var j :| 0 <= j < |plan.twin| && plan.twin[j] == c;
      TwinInTree(plan, g, j);
    }
    SelectAll(KidsOf(g, y), Savable(g));
  }

  lemma LoadedIsAlike(plan: Plan, g: Forest<MoonModule>)
    requires Loaded(plan, g)
    ensures Alike(plan.tree, g)
  {
    var f := plan.tree;
    forall m | m in Nodes(g) && m.typ == STORE_TYPE ensures SubOf(g, m) == Empty {
      if j :| 0 <= j < |plan.twin| && plan.twin[j] == m {
        TwinInTree(plan, g, j);
      }
      NoTwin(plan, g, m);
    }
    forall x, y | x in Savable(f) && y in Savable(g) ensures AlikeAt(f, g, x, y) {
      if x.id == y.id {
        var j := SavedAt(f, x);
        TwinById(plan, g, j, y);
        ReloadedLinks(plan, g, j);
        KidsAreSaved(plan, g, y);
      }
    }
  }

  /** A counterpart's record is the saved module's record. */
  lemma SameRecord(plan: Plan, g: Forest<MoonModule>, j: nat)
    requires Loaded(plan, g) && j < |plan.saved|
    ensures RecordOf(g, plan.twin[j]) == RecordOf(plan.tree, plan.saved[j])
  {
    TwinInTree(plan, g, j);
    TwinById(plan, g, j, plan.twin[j]);
    ReloadedLinks(plan, g, j);
  }

  lemma InSaved(f: Forest<MoonModule>, i: nat)
    requires i < |Saved(f)|
    ensures Saved(f)[i] in Savable(f) && Saved(f)[i] in Nodes(f)
  {
    SavedNodes(f);
    assert Saved(f)[i] in Elems(Saved(f));
  }

  /** The lists are equal when the ids are. */
  lemma ListsById(plan: Plan, g: Forest<MoonModule>)
    requires Loaded(plan, g)
    ensures Records(g) == Records(plan.tree) <==> IdsOf(Saved(g)) == IdsOf(Saved(plan.tree))
  {
    var f := plan.tree;
    if IdsOf(Saved(g)) == IdsOf(Saved(f)) {
      assert |Saved(g)| == |IdsOf(Saved(g))| == |Saved(f)|;
      forall i | 0 <= i < |Saved(f)| ensures RecordOf(g, Saved(g)[i]) == RecordOf(f, Saved(f)[i]) {
        assert IdsOf(Saved(g))[i] == IdsOf(Saved(f))[i];
        InSaved(g, i);
        TwinById(plan, g, i, Saved(g)[i]);
        SameRecord(plan, g, i);
      }
    }
    if Records(g) == Records(f) {
      assert |Saved(g)| == |Records(g)| == |Saved(f)|;
      forall i | 0 <= i < |Saved(f)| ensures Saved(g)[i].id == Saved(f)[i].id {
        assert Records(g)[i].id == Records(f)[i].id;
      }
    }
  }

  /** Equal lists have equal top levels. */
  lemma RootsById(plan: Plan, g: Forest<MoonModule>)
    requires Loaded(plan, g) && IdsOf(Saved(g)) == IdsOf(Saved(plan.tree))
    ensures SavedIds(g, Roots(g)) == SavedIds(plan.tree, Roots(plan.tree))
  {
    var f := plan.tree;
    assert |Saved(g)| == |IdsOf(Saved(g))| == |Saved(f)|;
    forall i | 0 <= i < |Saved(f)|
      ensures Saved(g)[i].id == Saved(f)[i].id && (Saved(g)[i] in Elems(Roots(g)) <==> Saved(f)[i] in Elems(Roots(f)))
    {
      assert IdsOf(Saved(g))[i] == IdsOf(Saved(f))[i];
      InSaved(g, i);
      InSaved(f, i);
      TwinById(plan, g, i, Saved(g)[i]);
      ReloadedLinks(plan, g, i);
      ParentlessAreRoots(g, Saved(g)[i]);
      ParentlessAreRoots(f, Saved(f)[i]);
    }
    SelectAlike(Saved(g), Elems(Roots(g)), Saved(f), Elems(Roots(f)));
    SavedTop(f);
    SavedTop(g);
  }

  lemma SavedTop(f: Forest<MoonModule>)
    requires Distinct(f)
    ensures Select(Saved(f), Elems(Roots(f))) == Select(Roots(f), Savable(f))
  {
    SavedRoots(f, Savable(f));
    SavedNodes(f);
    SelectAll(Saved(f), Savable(f));
  }

  /** The lists are equal exactly when the saved top levels stand in the same order. */
  lemma ListsByRoots(plan: Plan, g: Forest<MoonModule>)
    requires Loaded(plan, g)
    ensures Records(g) == Records(plan.tree) <==> SavedIds(g, Roots(g)) == SavedIds(plan.tree, Roots(plan.tree))
  {
    hide Select, IdsOf, Records, RecordList;
    ListsById(plan, g);
    if SavedIds(g, Roots(g)) == SavedIds(plan.tree, Roots(plan.tree)) {
      LoadedIsAlike(plan, g);
      SameOrder(plan.tree, g, plan.tree, g);
    }
    if IdsOf(Saved(g)) == IdsOf(Saved(plan.tree)) {
      RootsById(plan, g);
    }
  }

  // ---- The condition ----

  /** The booted modules that are saved again at the top level: no state store, and not saved as
      nested in another module. */
  ghost function Staying(f: Forest<MoonModule>, heads: seq<MoonModule>): set<MoonModule> {
    set y | y in heads && y.typ != STORE_TYPE && forall x :: x in Saved(f) && x.id == y.id ==> ParentOf(f, x) == None
  }

  /** The booted modules that stay at the top level, and behind them the saved top-level modules the
      boot did not bring along, are the saved top level in its saved order. */
  ghost predicate RootOrderKept(f: Forest<MoonModule>, heads: seq<MoonModule>) {
    IdsOf(Select(heads, Staying(f, heads))) + IdsOf(Select(Roots(f), Missing(f, heads))) == SavedIds(f, Roots(f))
  }

  lemma SelectBoth<T>(s: seq<T>, a: set<T>, b: set<T>)
    ensures Select(Select(s, a), b) == Select(s, a * b)
  {
    ElemsSelect(s, a);
    SelectSame(Select(s, a), b, a * b);
    SelectTwice(s, a, a * b);
  }

  /** A booted module stands saved at the reloaded top level exactly when it stays. */
  lemma StayingIsRoot(plan: Plan, g: Forest<MoonModule>, heads: seq<MoonModule>, y: MoonModule)
    requires Loaded(plan, g) && y in heads && y in Nodes(g)
    ensures y in Staying(plan.tree, heads) <==> y in Elems(Roots(g)) * Savable(g)
  {
    var f := plan.tree;
    SavedNodes(f);
    forall x | x in Saved(f) && x.id == y.id
      ensures exists i :: 0 <= i < |plan.saved| && plan.saved[i] == x && plan.twin[i] == y
    {
      var i :| 0 <= i < |plan.saved| && plan.saved[i] == x;
      TwinById(plan, g, i, y);
    }
    if j :| 0 <= j < |plan.twin| && plan.twin[j] == y {
      TwinInTree(plan, g, j);
      ReloadedLinks(plan, g, j);
      ParentlessAreRoots(g, y);
      assert plan.saved[j] in plan.saved;
    } else {
      NoTwin(plan, g, y);
    }
  }

  /** The saved part of the reloaded top level. */
  lemma TopAfterReload(plan: Plan, g: Forest<MoonModule>, heads: seq<MoonModule>, added: seq<MoonModule>)
    requires Loaded(plan, g) && plan.ms == heads + added
    requires IdsOf(added) == IdsOf(Select(plan.saved, Missing(plan.tree, heads)))
    ensures SavedIds(g, Roots(g)) ==
            IdsOf(Select(heads, Staying(plan.tree, heads))) + IdsOf(Select(Roots(plan.tree), Missing(plan.tree, heads)))
  {
    hide Select, Elems, Nodes, SubOf, ParentOf, Roots, Distinct;
    var roots, s := Elems(Roots(g)), Savable(g);
    SelectConcat(heads, added, roots);
    SavedIdsConcat(g, Select(heads, roots), Select(added, roots));
    SelectBoth(heads, roots, s);
    HeadsStay(plan, g, heads, added);
    AddedAreSaved(plan, g, heads, added);
    AddedRoots(plan.ms, heads, added, roots);
    ReloadedRoots(plan, heads, added, g);
  }

  lemma HeadsStay(plan: Plan, g: Forest<MoonModule>, heads: seq<MoonModule>, added: seq<MoonModule>)
    requires Loaded(plan, g) && plan.ms == heads + added
    ensures Select(heads, Elems(Roots(g)) * Savable(g)) == Select(heads, Staying(plan.tree, heads))
  {
    ElemsConcat(heads, added);
    forall y | y in Elems(heads) ensures y in Staying(plan.tree, heads) <==> y in Elems(Roots(g)) * Savable(g) {
      StayingIsRoot(plan, g, heads, y);
    }
    SelectSame(heads, Elems(Roots(g)) * Savable(g), Staying(plan.tree, heads));
  }

  lemma AddedAreSaved(plan: Plan, g: Forest<MoonModule>, heads: seq<MoonModule>, added: seq<MoonModule>)
    requires Loaded(plan, g) && plan.ms == heads + added
    requires IdsOf(added) == IdsOf(Select(plan.saved, Missing(plan.tree, heads)))
    ensures Select(Select(added, Elems(Roots(g))), Savable(g)) == Select(added, Elems(Roots(g)))
  {
    var picked := Select(plan.saved, Missing(plan.tree, heads));
    ElemsConcat(heads, added);
    assert |IdsOf(added)| == |IdsOf(picked)|;
    forall y | y in Elems(added) ensures y in Savable(g) {
      var i :| 0 <= i < |added| && added[i] == y;
      assert IdsOf(added)[i] == IdsOf(picked)[i];
      var j := SelectPrefix(plan.saved, Missing(plan.tree, heads), i);
      TwinById(plan, g, j, y);
    }
    ElemsSelect(added, Elems(Roots(g)));
    SelectAll(Select(added, Elems(Roots(g))), Savable(g));
  }

  // ---- Saving, reloading, saving ----

  lemma ParentIsNoStore(manager: ModuleManager, m: MoonModule, c: MoonModule)
    requires Storable(manager) && m in Nodes(manager.forest) && c in KidsOf(manager.forest, m)
    ensures m.typ != STORE_TYPE
  {
    var f := manager.forest;
    PreNodes(f);
    SubOfNodes(f, m);
    RootIn(SubOf(f, m), c);
    ParentChildInverse(f, m, c);
    assert c in Elems(manager.modules);
    assert Linked(f, c);
  }

  lemma StorableHasLeaves(manager: ModuleManager)
    requires Storable(manager)
    ensures StoresAreLeaves(manager.forest)
  {
    var f := manager.forest;
    forall m | m in Nodes(f) && SubOf(f, m) != Empty ensures m.typ != STORE_TYPE {
      ParentIsNoStore(manager, m, SubOf(f, m).node);
    }
  }

  /** Save a manager, load the list into a freshly booted one, and save that: the second list is the
      first exactly when the boot's modules keep the saved order of the top level. */
  method SaveReloadSave(saved: ModuleManager, boot: ModuleManager) returns (first: seq<Record>, second: seq<Record>)
    requires Storable(saved)
    requires boot.Valid() && Flat(boot.forest) && UniqueIds(boot.modules) && Typed(boot)
    requires saved != boot && saved.factories == boot.factories
    requires TypesAgree(saved.forest, boot.modules)
    modifies boot`modules, boot`forest, boot.modules
    ensures boot.Valid() && first == Records(saved.forest) && second == Records(boot.forest)
    ensures first == second <==> RootOrderKept(saved.forest, old(boot.modules))
  {
    hide Reloadable, TypesAgree, Records, RecordList, Flat, RootOrderKept, Select;
    ghost var f, heads := saved.forest, boot.modules;
    StorableIsReloadable(saved, boot);
    StorableHasLeaves(saved);
    first := Snapshot(saved);
    ghost var ms := LoadModules(boot, first, f);
    second := Snapshot(boot);
    SecondListSame(f, boot.forest, heads, ms);
  }

  lemma SecondListSame(f: Forest<MoonModule>, g: Forest<MoonModule>, heads: seq<MoonModule>, ms: seq<MoonModule>)
    requires StoresAreLeaves(f) && heads <= ms && UniqueIds(ms) && TypesAgree(f, ms) && AllPresent(f, ms)
    requires IdsOf(ms) == IdsOf(heads) + IdsOf(Select(Saved(f), Missing(f, heads)))
    requires PlanFor(f, ms).Ready() && PlanFor(f, ms).Rebuilt(|Saved(f)|, g)
    ensures Records(f) == Records(g) <==> RootOrderKept(f, heads)
  {
    hide Select, Records, RecordList;
    var plan, added := PlanFor(f, ms), ms[|heads|..];
    assert ms == heads + added;
    assert IdsOf(ms)[|heads|..] == IdsOf(added);
    ListsByRoots(plan, g);
    TopAfterReload(plan, g, heads, added);
  }
}
