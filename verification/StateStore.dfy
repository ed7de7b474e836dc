/** Rebuilding the module tree from a saved list with the two-pass loader.  */
module StateStores {
  import opened Forests
  import opened ForestOps
  import opened MoonModules
  import opened ModuleManagers
  import opened ChildOrders
  import opened SavedLists
  import opened Relinking

  // ---- The loader ----

  ghost predicate SameShape(a: seq<Control>, b: seq<Control>) {
    |a| == |b| && forall i :: 0 <= i < |a| ==> a[i].key == b[i].key && a[i].ctype == b[i].ctype
  }

  /** Every module has the inputs and the category its type is registered with. */
  ghost predicate Typed(manager: ModuleManager)
    reads manager, manager.modules
  {
    forall m :: m in manager.modules ==>
      && m.category == manager.InfoOf(m.typ).category
      && SameShape(m.controls, manager.InfoOf(m.typ).controls)
  }

  /** Top-level modules only. */
  ghost predicate Flat<T>(f: Forest<T>) {
    f.Grow? ==> f.kids.Empty? && Flat(f.rest)
  }

  lemma {:induction false} FlatFacts<T>(f: Forest<T>, y: T)
    requires Flat(f)
    ensures SubOf(f, y) == Empty && ParentOf(f, y) == None && Pre(f) == Roots(f)
  {
    if f.Grow? {
      FlatFacts(f.rest, y);
      NilMid([f.node], Pre(f.rest));
    }
  }

  lemma {:induction false} FlatAppend<T>(f: Forest<T>, x: T)
    requires Flat(f)
    ensures Flat(Append(f, Leaf(x)))
  {
    if f.Grow? {
      FlatAppend(f.rest, x);
    }
  }

  /** What a saved tree f must satisfy for a reload: usable names, no module nested under the
      state store, and for every nested module an input that accepts its parent. */
  ghost predicate Reloadable(f: Forest<MoonModule>, manager: ModuleManager) {
    && Distinct(f) && UniqueIds(Pre(f))
    && (forall x :: x in Saved(f) ==>
          && x.id != "" && x.typ != "" && |KidsOf(f, x)| <= MAX_CHILDREN
          && match ParentOf(f, x)
             case None => true
             case Some(p) =>
               && p.typ != STORE_TYPE
               && ParentInput(manager.InfoOf(x.typ).controls, p.typ, manager.InfoOf(p.typ).category) >= 0)
  }

  /** Modules with the id of a saved one have its type. */
  ghost predicate TypesAgree(f: Forest<MoonModule>, ms: seq<MoonModule>) {
    forall x, y :: x in Saved(f) && y in ms && x.id == y.id ==> x.typ == y.typ
  }

  /** Saved entries that the booting manager does not already hold. */
  ghost function Missing(f: Forest<MoonModule>, present: seq<MoonModule>): set<MoonModule> {
    set x | x in Savable(f) && Lookup(present, x.id).None?
  }

  lemma SavedDistinct(f: Forest<MoonModule>)
    requires Distinct(f) && UniqueIds(Pre(f))
    ensures NoDup(Saved(f))
    ensures forall x :: x in Saved(f) ==> x in Pre(f) && x.typ != STORE_TYPE
    ensures forall i, j :: 0 <= i < j < |Saved(f)| ==> Saved(f)[i].id != Saved(f)[j].id
  {
    DistinctNoDup(f);
    SelectNoDup(Pre(f), Savable(f));
    SavedNodes(f);
    PreNodes(f);
    forall x | x in Saved(f) ensures x in Pre(f) && x.typ != STORE_TYPE {
      assert x in Elems(Saved(f));
      assert x in Elems(Pre(f));
    }
    forall i, j | 0 <= i < j < |Saved(f)| ensures Saved(f)[i].id != Saved(f)[j].id {
      assert Saved(f)[i] in Saved(f) && Saved(f)[j] in Saved(f);
    }
  }

  lemma {:induction false} LookupGrows(ms: seq<MoonModule>, m: MoonModule, id: string)
    requires Lookup(ms, id).Some?
    ensures Lookup(ms + [m], id) == Lookup(ms, id)
  {
    assert (ms + [m])[0] == ms[0];
    if ms[0].id != id {
      assert (ms + [m])[1..] == ms[1..] + [m];
      LookupGrows(ms[1..], m, id);
    }
  }

  /** After i entries: the present modules are the heads and then the missing among the first i. */
  ghost predicate AddedSoFar(f: Forest<MoonModule>, heads: seq<MoonModule>, i: nat, ms: seq<MoonModule>)
    requires i <= |Saved(f)|
  {
    && UniqueIds(ms) && heads <= ms
    && IdsOf(ms) == IdsOf(heads) + IdsOf(Select(Saved(f)[..i], Missing(f, heads)))
    && (forall k :: 0 <= k < i ==>
          Lookup(ms, Saved(f)[k].id).Some? && Lookup(ms, Saved(f)[k].id).value.typ == Saved(f)[k].typ)
  }

  lemma PickedEarlier(f: Forest<MoonModule>, i: nat, keep: set<MoonModule>, t: nat)
    requires Distinct(f) && UniqueIds(Pre(f)) && i < |Saved(f)| && t < |Select(Saved(f)[..i], keep)|
    ensures Select(Saved(f)[..i], keep)[t].id != Saved(f)[i].id
  {
    SavedDistinct(f);
    var j := SelectPrefix(Saved(f)[..i], keep, t);
  }

  lemma IdsConcatAt(ids: seq<string>, a: seq<MoonModule>, b: seq<MoonModule>, at: nat)
    requires ids == IdsOf(a) + IdsOf(b) && |a| <= at < |ids|
    ensures at - |a| < |b| && ids[at] == b[at - |a|].id
  {
  }

  /** An id that is taken before entry i is reached belongs to one of the heads. */
  lemma TakenByHead(f: Forest<MoonModule>, heads: seq<MoonModule>, i: nat, ms: seq<MoonModule>, at: nat)
    requires Distinct(f) && UniqueIds(Pre(f)) && i < |Saved(f)| && heads <= ms
    requires IdsOf(ms) == IdsOf(heads) + IdsOf(Select(Saved(f)[..i], Missing(f, heads)))
    requires at < |ms| && ms[at].id == Saved(f)[i].id
    ensures at < |heads| && heads[at].id == Saved(f)[i].id
  {
    if at >= |heads| {
      var picked := Select(Saved(f)[..i], Missing(f, heads));
      IdsConcatAt(IdsOf(ms), heads, picked, at);
      PickedEarlier(f, i, Missing(f, heads), at - |heads|);
      assert false;
    }
  }

  lemma EntryPresent(f: Forest<MoonModule>, heads: seq<MoonModule>, i: nat, ms: seq<MoonModule>)
    requires Distinct(f) && UniqueIds(Pre(f)) && i < |Saved(f)| && AddedSoFar(f, heads, i, ms)
    requires Lookup(ms, Saved(f)[i].id).Some? && TypesAgree(f, ms)
    ensures AddedSoFar(f, heads, i + 1, ms)
  {
    var at :| 0 <= at < |ms| && ms[at] == Lookup(ms, Saved(f)[i].id).value;
    TakenByHead(f, heads, i, ms, at);
    assert Lookup(heads, Saved(f)[i].id).Some?;
    assert Saved(f)[i] in Saved(f);
    SelectNext(Saved(f), i, Missing(f, heads));
    assert Select(Saved(f)[..i], Missing(f, heads)) + [] == Select(Saved(f)[..i], Missing(f, heads));
  }

  lemma EntryUnique(f: Forest<MoonModule>, i: nat, ms: seq<MoonModule>, m: MoonModule)
    requires Distinct(f) && UniqueIds(Pre(f)) && i < |Saved(f)| && UniqueIds(ms) && TypesAgree(f, ms)
    requires Lookup(ms, Saved(f)[i].id).None? && m.id == Saved(f)[i].id && m.typ == Saved(f)[i].typ
    ensures UniqueIds(ms + [m]) && TypesAgree(f, ms + [m])
  {
    SavedDistinct(f);
    assert Saved(f)[i] in Saved(f);
  }

  lemma EntryAdded(f: Forest<MoonModule>, heads: seq<MoonModule>, i: nat, ms: seq<MoonModule>, m: MoonModule)
    requires Distinct(f) && UniqueIds(Pre(f)) && i < |Saved(f)| && AddedSoFar(f, heads, i, ms)
    requires Lookup(ms, Saved(f)[i].id).None? && m.id == Saved(f)[i].id && m.typ == Saved(f)[i].typ
    requires UniqueIds(ms + [m])
    ensures AddedSoFar(f, heads, i + 1, ms + [m])
  {
    var saved, lacking := Saved(f), Missing(f, heads);
    assert saved[i] in lacking by {
      assert forall y :: y in heads ==> y in ms;
      SavedNodes(f);
      assert saved[i] in Elems(saved);
    }
    SelectNext(saved, i, lacking);
    var picked := Select(saved[..i], lacking);
    IdsAppend(picked, saved[i]);
    IdsAppend(ms, m);
    Assoc(IdsOf(heads), IdsOf(picked), [m.id]);
    LookupUnique(ms + [m], m);
    forall k | 0 <= k < i ensures Lookup(ms + [m], saved[k].id) == Lookup(ms, saved[k].id) {
      LookupGrows(ms, m, saved[k].id);
    }
  }

  method AddTyped(manager: ModuleManager, typ: string, id: string) returns (m: MoonModule)
    requires manager.Valid() && Flat(manager.forest) && Typed(manager)
    modifies manager`modules, manager`forest
    ensures manager.Valid() && Flat(manager.forest) && Typed(manager)
    ensures manager.modules == old(manager.modules) + [m] && m.typ == typ && m.id == id && fresh(m)
  {
    ghost var tree := manager.forest;
    m := manager.Add(typ, id);
    FlatAppend(tree, m);
  }

  lemma EntryNamed(f: Forest<MoonModule>, manager: ModuleManager, i: nat)
    requires Reloadable(f, manager) && i < |Saved(f)|
    ensures Saved(f)[i].id != "" && Saved(f)[i].typ != ""
  {
    assert Saved(f)[i] in Saved(f);
  }

  /** Add one listed module unless its id is taken. */
  method AddEntry(manager: ModuleManager, entry: Record, ghost f: Forest<MoonModule>,
                  ghost heads: seq<MoonModule>, ghost i: nat)
    requires manager.Valid() && Flat(manager.forest) && Typed(manager)
    requires Reloadable(f, manager) && i < |Saved(f)| && entry == RecordOf(f, Saved(f)[i])
    requires AddedSoFar(f, heads, i, manager.modules) && TypesAgree(f, manager.modules)
    modifies manager`modules, manager`forest
    ensures manager.Valid() && Flat(manager.forest) && Typed(manager)
    ensures AddedSoFar(f, heads, i + 1, manager.modules) && TypesAgree(f, manager.modules)
    ensures fresh(Elems(manager.modules) - Elems(old(manager.modules)))
  {
    hide Nodes, SubOf, Roots, SameShape, ParentInput, Select;
    EntryNamed(f, manager, i);
    if entry.typ == "" || entry.id == "" { return; }
    var there := manager.Find(entry.id);
    if there != null {
      EntryPresent(f, heads, i, manager.modules);
      return;
    }
    ghost var before := manager.modules;
    var m := AddTyped(manager, entry.typ, entry.id);
    EntryUnique(f, i, before, m);
    EntryAdded(f, heads, i, before, m);
  }

  /** First pass: add every listed module that is not there yet, at the top level. */
  method AddMissing(manager: ModuleManager, list: seq<Record>, ghost f: Forest<MoonModule>)
    requires manager.Valid() && Flat(manager.forest) && UniqueIds(manager.modules) && Typed(manager)
    requires Reloadable(f, manager) && TypesAgree(f, manager.modules) && list == Records(f)
    modifies manager`modules, manager`forest
    ensures manager.Valid() && Flat(manager.forest) && Typed(manager)
    ensures AddedSoFar(f, old(manager.modules), |list|, manager.modules) && TypesAgree(f, manager.modules)
    ensures fresh(Elems(manager.modules) - Elems(old(manager.modules)))
  {
    ghost var heads := manager.modules;
    assert IdsOf([]) == [] && IdsOf(heads) + [] == IdsOf(heads);
    for i := 0 to |list|
      invariant manager.Valid() && Flat(manager.forest) && Typed(manager)
      invariant AddedSoFar(f, heads, i, manager.modules) && TypesAgree(f, manager.modules)
      invariant fresh(Elems(manager.modules) - Elems(heads))
    {
      AddEntry(manager, list[i], f, heads, i);
    }
  }

  ghost function IndexIn<T>(s: seq<T>, x: T): (r: int)
    ensures -1 <= r < |s|
    ensures r >= 0 ==> s[r] == x
    ensures x in s ==> r >= 0
  {
    if s == [] then -1
    else if s[|s| - 1] == x then |s| - 1
    else IndexIn(s[..|s| - 1], x)
  }

  /** Every listed module has a counterpart with the same id. */
  ghost predicate AllPresent(f: Forest<MoonModule>, ms: seq<MoonModule>) {
    forall k :: 0 <= k < |Saved(f)| ==> Lookup(ms, Saved(f)[k].id).Some?
  }

  /** The relinking plan: counterparts by id, parents by position in the list. */
  ghost function PlanFor(f: Forest<MoonModule>, ms: seq<MoonModule>): (plan: Plan)
    requires AllPresent(f, ms)
    ensures plan.tree == f && plan.saved == Saved(f) && plan.ms == ms && |plan.twin| == |plan.up| == |plan.saved|
    ensures forall k :: 0 <= k < |plan.saved| ==> Lookup(ms, plan.saved[k].id) == Some(plan.twin[k]) && plan.up[k] < |plan.saved|
  {
    var saved := Saved(f);
    Plan(f, saved,
         seq(|saved|, k requires 0 <= k < |saved| => Lookup(ms, saved[k].id).value),
         seq(|saved|, k requires 0 <= k < |saved| =>
           match ParentOf(f, saved[k]) case None => -1 case Some(p) => IndexIn(saved, p)),
         ms)
  }

  lemma PlanIsReady(f: Forest<MoonModule>, manager: ModuleManager, ms: seq<MoonModule>)
    requires Reloadable(f, manager) && AllPresent(f, ms) && NoDup(ms)
    ensures PlanFor(f, ms).Ready()
  {
    hide Select;
    var plan := PlanFor(f, ms);
    SavedDistinct(f);
    SavedNodes(f);
    forall j | 0 <= j < |plan.saved|
      ensures plan.twin[j] in ms && plan.twin[j].id == plan.saved[j].id
      ensures ParentOf(f, plan.saved[j]) == (if plan.up[j] < 0 then None else Some(plan.saved[plan.up[j]]))
      ensures |KidsOf(f, plan.saved[j])| <= MAX_CHILDREN
    {
      assert plan.saved[j] in plan.saved;
      ParentInside(f, plan.saved[j]);
      if ParentOf(f, plan.saved[j]).Some? {
        assert ParentOf(f, plan.saved[j]).value in Elems(plan.saved);
      }
    }
    forall i, j | 0 <= i < j < |plan.saved| ensures plan.twin[i] != plan.twin[j] {
      assert plan.twin[i].id != plan.twin[j].id;
    }
  }

  lemma FlatRebuilt(plan: Plan, g: Forest<MoonModule>)
    requires Distinct(g) && Flat(g) && plan.Ready() && plan.ms == Pre(g)
    ensures plan.Rebuilt(0, g)
  {
    PreNodes(g);
    forall y | y in Pre(g) ensures KidsOf(g, y) == [] && ParentOf(g, y) == None {
      FlatFacts(g, y);
    }
    if |Pre(g)| > 0 {
      FlatFacts(g, Pre(g)[0]);
    } else {
      RootsInNodes(g);
    }
    SelectAll(Pre(g), Elems(Roots(g)));
    assert plan.saved[..0] == [];
  }

  lemma SameOwners(manager: ModuleManager, g: Forest<MoonModule>, m: MoonModule, p: MoonModule, ms: seq<MoonModule>)
    requires Distinct(g) && ms == Pre(g) && m in ms && p in ms && p !in Nodes(TreeOf(g, m))
    requires manager.Valid() && manager.forest == Move(g, m, p)
    ensures Elems(manager.modules) == Elems(ms)
  {
    PreNodes(g);
    PreNodes(manager.forest);
    assert m in Elems(ms) && p in Elems(ms);
    MoveNodes(g, m, p);
  }

  method NestTyped(manager: ModuleManager, id: string, parentId: string)
    requires manager.Valid() && Typed(manager) && manager.MayReparent(id, parentId)
    requires manager.Accepts(id, parentId) && parentId != ""
    requires UniqueIds(manager.modules)
    modifies manager`modules, manager`forest, manager.modules
    ensures manager.Valid() && Typed(manager)
    ensures manager.forest ==
            Move(old(manager.forest), Lookup(old(manager.modules), id).value, Lookup(old(manager.modules), parentId).value)
    ensures Elems(manager.modules) == Elems(old(manager.modules))
  {
    hide Move, Nodes, Distinct, SubOf, Select, ParentInput, HoldsId, Fits;
    ghost var g, ms := manager.forest, manager.modules;
    ghost var m, p := Lookup(ms, id).value, Lookup(ms, parentId).value;
    var ok := manager.Reparent(id, parentId);
    SameOwners(manager, g, m, p, ms);
    forall y | y in manager.modules
      ensures y.category == manager.InfoOf(y.typ).category && SameShape(y.controls, manager.InfoOf(y.typ).controls)
    {
      assert y in Elems(manager.modules);
      assert y in Elems(ms);
      if y.id == id {
        assert y == m;
      }
    }
  }

  /** Everything the second pass relies on, none of which it changes. */
  ghost predicate Prepared(f: Forest<MoonModule>, manager: ModuleManager, ms: seq<MoonModule>, g: Forest<MoonModule>) {
    && Reloadable(f, manager) && TypesAgree(f, ms) && UniqueIds(ms) && AllPresent(f, ms)
    && PlanFor(f, ms).Ready() && PlanFor(f, ms).Rebuilt(0, g)
  }

  /** The manager's own lookups find the counterparts. */
  lemma CounterpartsFound(manager: ModuleManager, f: Forest<MoonModule>, ms: seq<MoonModule>, k: nat)
    requires AllPresent(f, ms) && k < |Saved(f)|
    requires UniqueIds(ms) && Elems(manager.modules) == Elems(ms)
    ensures Lookup(manager.modules, Saved(f)[k].id) == Some(PlanFor(f, ms).twin[k])
    ensures UniqueIds(manager.modules)
  {
    var m := PlanFor(f, ms).twin[k];
    assert m in Elems(ms) && m in Elems(manager.modules);
    assert forall y :: y in manager.modules ==> y in Elems(manager.modules);
    LookupUnique(manager.modules, m);
  }

  /** The saved parent is accepted again: the inputs of a type do not change. */
  lemma ParentAccepted(manager: ModuleManager, f: Forest<MoonModule>, ms: seq<MoonModule>, k: nat, q: nat)
    requires manager.Valid() && Typed(manager) && Reloadable(f, manager) && TypesAgree(f, ms)
    requires AllPresent(f, ms) && k < |Saved(f)| && q < |Saved(f)|
    requires UniqueIds(ms) && Elems(manager.modules) == Elems(ms)
    requires ParentOf(f, Saved(f)[k]) == Some(Saved(f)[q])
    ensures manager.Accepts(Saved(f)[k].id, Saved(f)[q].id)
  {
    var saved, twin := Saved(f), PlanFor(f, ms).twin;
    CounterpartsFound(manager, f, ms, k);
    CounterpartsFound(manager, f, ms, q);
    assert saved[k] in saved && saved[q] in saved;
    SameInputs(twin[k].controls, manager.InfoOf(saved[k].typ).controls, twin[q]);
  }

  lemma EntryMayMove(manager: ModuleManager, f: Forest<MoonModule>, ms: seq<MoonModule>, g: Forest<MoonModule>, k: nat, q: nat)
    requires Prepared(f, manager, ms, g) && k < |Saved(f)|
    requires manager.Valid() && manager.forest == PlanFor(f, ms).Relinked(g, k)
    requires PlanFor(f, ms).up[k] == q
    ensures manager.MayReparent(Saved(f)[k].id, Saved(f)[q].id)
    ensures Elems(manager.modules) == Elems(ms)
  {
    hide Select;
    var plan := PlanFor(f, ms);
    RelinkedIsRebuilt(plan, g, k);
    EntryIsLeaf(plan, k, manager.forest);
    ParentHasRoom(plan, k, manager.forest);
    PreNodes(manager.forest);
    CounterpartsFound(manager, f, ms, k);
    CounterpartsFound(manager, f, ms, q);
    assert Linked(manager.forest, plan.twin[q]);
  }

  /** Relink one listed module under its saved parent. */
  method RelinkEntry(manager: ModuleManager, entry: Record, ghost f: Forest<MoonModule>,
                     ghost ms: seq<MoonModule>, ghost g: Forest<MoonModule>, ghost k: nat, ghost owners: set<MoonModule>)
    requires Prepared(f, manager, ms, g) && owners == Elems(ms)
    requires k < |Saved(f)| && entry == RecordOf(f, Saved(f)[k])
    requires manager.Valid() && Typed(manager) && manager.forest == PlanFor(f, ms).Relinked(g, k)
    modifies manager`modules, manager`forest, owners
    ensures manager.Valid() && Typed(manager) && manager.forest == PlanFor(f, ms).Relinked(g, k + 1)
  {
    hide Select, Elems, Nodes, Distinct, SubOf, Roots, Move;
    ghost var saved, q := Saved(f), PlanFor(f, ms).up[k];
    assert saved[k] in saved && (q >= 0 ==> saved[q] in saved);
    if entry.id == "" || entry.parentId == "" { return; }
    EntryMayMove(manager, f, ms, g, k, q);
    CounterpartsFound(manager, f, ms, k);
    CounterpartsFound(manager, f, ms, q);
    ParentAccepted(manager, f, ms, k, q);
    OwnersCover(manager.modules, owners);
    NestTyped(manager, entry.id, entry.parentId);
  }

  lemma OwnersCover(ms: seq<MoonModule>, owners: set<MoonModule>)
    requires Elems(ms) == owners
    ensures forall y :: y in ms <==> y in owners
  {
    assert forall y :: y in ms <==> y in Elems(ms);
  }

  /** Second pass: relink every listed module that has a saved parent. */
  method RelinkAll(manager: ModuleManager, list: seq<Record>, ghost f: Forest<MoonModule>, ghost ms: seq<MoonModule>,
                   ghost owners: set<MoonModule>)
    requires manager.Valid() && Typed(manager) && Prepared(f, manager, ms, manager.forest)
    requires list == Records(f) && owners == Elems(ms)
    modifies manager`modules, manager`forest, owners
    ensures manager.Valid() && Typed(manager)
    ensures manager.forest == PlanFor(f, ms).Relinked(old(manager.forest), |Saved(f)|)
  {
    hide Select, Elems, Nodes, Distinct, SubOf, Roots, ParentOf, Move;
    ghost var g := manager.forest;
    for k := 0 to |list|
      invariant manager.Valid() && Typed(manager) && manager.forest == PlanFor(f, ms).Relinked(g, k)
    {
      RelinkEntry(manager, list[k], f, ms, g, k, owners);
    }
  }

  /** Both passes of the loader. Afterwards every saved module has its counterpart, with the
      same parent and the same children in the same order; modules that were not saved stay
      childless at the top level; and the top level keeps its order. */
  method LoadModules(manager: ModuleManager, list: seq<Record>, ghost f: Forest<MoonModule>)
    returns (ghost ms: seq<MoonModule>)
    requires manager.Valid() && Flat(manager.forest) && UniqueIds(manager.modules) && Typed(manager)
    requires Reloadable(f, manager) && TypesAgree(f, manager.modules) && list == Records(f)
    modifies manager`modules, manager`forest, manager.modules
    ensures manager.Valid() && Typed(manager) && UniqueIds(ms)
    ensures IdsOf(ms) == IdsOf(old(manager.modules)) + IdsOf(Select(Saved(f), Missing(f, old(manager.modules))))
    ensures old(manager.modules) <= ms && TypesAgree(f, ms)
    ensures AllPresent(f, ms) && PlanFor(f, ms).Ready()
    ensures PlanFor(f, ms).Rebuilt(|Saved(f)|, manager.forest)
  {
    AddMissing(manager, list, f);
    ms := manager.modules;
    assert Saved(f)[..|Saved(f)|] == Saved(f);
    DistinctNoDup(manager.forest);
    PlanIsReady(f, manager, ms);
    FlatRebuilt(PlanFor(f, ms), manager.forest);
    OwnersCover(old(manager.modules), Elems(old(manager.modules)));
    ghost var g := manager.forest;
    RelinkAll(manager, list, f, ms, Elems(ms));
    RelinkedIsRebuilt(PlanFor(f, ms), g, |Saved(f)|);
  }

  // ---- Saving and reloading ----

  /** Children and parent of a reloaded module, against those of the saved one. */
  lemma ReloadedLinks(plan: Plan, g: Forest<MoonModule>, j: nat)
    requires plan.Ready() && plan.Rebuilt(|plan.saved|, g) && j < |plan.saved|
    ensures IdsOf(KidsOf(g, plan.twin[j])) == IdsOf(Select(KidsOf(plan.tree, plan.saved[j]), Savable(plan.tree)))
    ensures match ParentOf(plan.tree, plan.saved[j])
            case None => ParentOf(g, plan.twin[j]) == None
            case Some(p) => ParentOf(g, plan.twin[j]).Some? && ParentOf(g, plan.twin[j]).value.id == p.id
  {
    assert plan.saved[..|plan.saved|] == plan.saved;
    SavedKids(plan.tree, plan.saved[j]);
  }

  lemma {:induction false} SelectAlike(a: seq<MoonModule>, inA: set<MoonModule>, b: seq<MoonModule>, inB: set<MoonModule>)
    requires |a| == |b| && forall i :: 0 <= i < |a| ==> a[i].id == b[i].id && (a[i] in inA <==> b[i] in inB)
    ensures IdsOf(Select(a, inA)) == IdsOf(Select(b, inB))
  {
    if a != [] {
      SelectAlike(a[1..], inA, b[1..], inB);
      if a[0] in inA {
        IdsCons(a[0], Select(a[1..], inA));
        IdsCons(b[0], Select(b[1..], inB));
      }
    }
  }

  lemma IdsCons(m: MoonModule, s: seq<MoonModule>)
    ensures IdsOf([m] + s) == [m.id] + IdsOf(s)
  {
  }

  /** The saved top-level modules that the boot did not bring along keep their order. */
  lemma ReloadedRoots(plan: Plan, heads: seq<MoonModule>, added: seq<MoonModule>, g: Forest<MoonModule>)
    requires plan.Ready() && plan.Rebuilt(|plan.saved|, g) && plan.ms == heads + added
    requires UniqueIds(plan.ms) && IdsOf(added) == IdsOf(Select(plan.saved, Missing(plan.tree, heads)))
    ensures IdsOf(Select(Roots(g), Elems(added))) == IdsOf(Select(Roots(plan.tree), Missing(plan.tree, heads)))
  {
    var f, lacking, late := plan.tree, Missing(plan.tree, heads), Elems(added);
    var picked := Select(plan.saved, lacking);
    assert Select(Roots(g), late) == Select(added, Elems(Roots(g))) by {
      AddedRoots(plan.ms, heads, added, Elems(Roots(g)));
    }
    forall i | 0 <= i < |added|
      ensures added[i].id == picked[i].id && (added[i] in Elems(Roots(g)) <==> picked[i] in Elems(Roots(f)))
    {
      assert IdsOf(added)[i] == IdsOf(picked)[i];
      var j := SelectPrefix(plan.saved, lacking, i);
      assert plan.ms[|heads| + i] == added[i];
      assert plan.twin[j] == added[i];
      ReloadedLinks(plan, g, j);
      assert added[i] in Elems(plan.ms);
      ParentlessAreRoots(g, added[i]);
      SavedNodes(f);
      assert picked[i] in Elems(plan.saved);
      ParentlessAreRoots(f, picked[i]);
    }
    assert |IdsOf(added)| == |IdsOf(picked)|;
    SelectAlike(added, Elems(Roots(g)), picked, Elems(Roots(f)));
    assert Select(picked, Elems(Roots(f))) == Select(Roots(f), lacking) by {
      SavedRoots(f, lacking);
    }
  }

  lemma AddedRoots(ms: seq<MoonModule>, heads: seq<MoonModule>, added: seq<MoonModule>, roots: set<MoonModule>)
    requires NoDup(ms) && ms == heads + added
    ensures Select(Select(ms, roots), Elems(added)) == Select(added, roots)
  {
    SelectSwap(ms, roots, Elems(added));
    SelectConcat(heads, added, Elems(added));
    SelectAll(added, Elems(added));
    forall i, j | 0 <= i < |heads| && 0 <= j < |added| ensures heads[i] != added[j] {
      assert ms[i] == heads[i] && ms[|heads| + j] == added[j];
    }
    SelectNone(heads, Elems(added));
    assert [] + added == added;
  }

  lemma SavedRoots(f: Forest<MoonModule>, lacking: set<MoonModule>)
    requires Distinct(f) && lacking <= Savable(f)
    ensures Select(Select(Saved(f), lacking), Elems(Roots(f))) == Select(Roots(f), lacking)
  {
    var roots := Elems(Roots(f));
    SelectTwice(Pre(f), Savable(f), lacking);
    SelectSwap(Pre(f), lacking, roots);
    SelectRoots(f, roots);
    SelectAll(Roots(f), roots);
  }

  /** A saved manager whose list can be reloaded: named modules, unique ids, and nothing nested
      under a state store. */
  ghost predicate Storable(manager: ModuleManager)
    reads manager, manager.modules
  {
    && manager.Valid() && Typed(manager) && UniqueIds(manager.modules)
    && forall m :: m in manager.modules ==>
         && m.id != "" && m.typ != ""
         && (m.parent != null ==> m.parent in manager.modules && m.parent.typ != STORE_TYPE)
  }

  /** What a manager can store, any manager with the same registered types can reload: an
      accepted parent link is always accepted again. */
  lemma StorableIsReloadable(saved: ModuleManager, boot: ModuleManager)
    requires Storable(saved) && saved.factories == boot.factories
    ensures Reloadable(saved.forest, boot)
  {
    var f := saved.forest;
    SavedNodes(f);
    PreNodes(f);
    forall x | x in Saved(f)
      ensures x.id != "" && x.typ != "" && |KidsOf(f, x)| <= MAX_CHILDREN
      ensures match ParentOf(f, x)
              case None => true
              case Some(p) =>
                && p.typ != STORE_TYPE
                && ParentInput(boot.InfoOf(x.typ).controls, p.typ, boot.InfoOf(p.typ).category) >= 0
    {
      assert x in Elems(Saved(f));
      assert x in Elems(saved.modules);
      assert Linked(f, x);
      if x.parent != null {
        SameInputs(x.controls, boot.InfoOf(x.typ).controls, x.parent);
      }
    }
  }

  /** x of the saved manager and y of the reloaded one: same id and type, same parent, same
      children in the same order (state stores are never saved). */
  ghost predicate Matches(f: Forest<MoonModule>, x: MoonModule, g: Forest<MoonModule>, y: MoonModule) {
    && y.id == x.id && y.typ == x.typ
    && IdsOf(KidsOf(g, y)) == IdsOf(Select(KidsOf(f, x), Savable(f)))
    && match ParentOf(f, x)
       case None => ParentOf(g, y) == None
       case Some(p) => ParentOf(g, y).Some? && ParentOf(g, y).value.id == p.id
  }

  /** Tree g over modules ms is what the saved tree f becomes in a manager that booted with
      `heads`: every saved module has its match, and the saved top-level modules that were not
      among the heads stand at the top level in their saved order. */
  ghost predicate Reloaded(f: Forest<MoonModule>, heads: seq<MoonModule>, ms: seq<MoonModule>, g: Forest<MoonModule>) {
    && (forall x :: x in Saved(f) ==> exists y :: y in ms && Matches(f, x, g, y))
    && var late := set y | y in ms && y !in heads;
       IdsOf(Select(Roots(g), late)) == IdsOf(Select(Roots(f), Missing(f, heads)))
  }

  lemma ReloadedMatches(plan: Plan, g: Forest<MoonModule>, ms: seq<MoonModule>, x: MoonModule)
    requires plan.Ready() && plan.Rebuilt(|plan.saved|, g) && TypesAgree(plan.tree, plan.ms) && x in plan.saved
    requires Elems(ms) == Elems(plan.ms)
    ensures exists y :: y in ms && Matches(plan.tree, x, g, y)
  {
    var j :| 0 <= j < |plan.saved| && plan.saved[j] == x;
    ReloadedLinks(plan, g, j);
    assert plan.twin[j] in Elems(ms);
    assert plan.twin[j] in ms && Matches(plan.tree, x, g, plan.twin[j]);
  }

  /** Save one manager's list and load it into a freshly booted one. */
  method SaveAndReload(saved: ModuleManager, boot: ModuleManager)
    requires Storable(saved)
    requires boot.Valid() && Flat(boot.forest) && UniqueIds(boot.modules) && Typed(boot)
    requires saved != boot && saved.factories == boot.factories
    requires TypesAgree(saved.forest, boot.modules)
    modifies boot`modules, boot`forest, boot.modules
    ensures boot.Valid() && Reloaded(saved.forest, old(boot.modules), boot.modules, boot.forest)
  {
    hide Reloadable, TypesAgree, Reloaded, Records, RecordList, Flat;
    StorableIsReloadable(saved, boot);
    var list := Snapshot(saved);
    Reload(boot, list, saved.forest);
  }

  method Reload(boot: ModuleManager, list: seq<Record>, ghost f: Forest<MoonModule>)
    requires boot.Valid() && Flat(boot.forest) && UniqueIds(boot.modules) && Typed(boot)
    requires Reloadable(f, boot) && TypesAgree(f, boot.modules) && list == Records(f)
    modifies boot`modules, boot`forest, boot.modules
    ensures boot.Valid() && Reloaded(f, old(boot.modules), boot.modules, boot.forest)
  {
    hide Select, Elems, Nodes, Distinct, SubOf, Roots, ParentOf, Move, Reloaded;
    ghost var ms := LoadModules(boot, list, f);
    ReloadFacts(f, boot, old(boot.modules), ms);
  }

  lemma ReloadFacts(f: Forest<MoonModule>, boot: ModuleManager, heads: seq<MoonModule>, ms: seq<MoonModule>)
    requires boot.Valid() && heads <= ms && UniqueIds(ms) && TypesAgree(f, ms) && AllPresent(f, ms)
    requires IdsOf(ms) == IdsOf(heads) + IdsOf(Select(Saved(f), Missing(f, heads)))
    requires PlanFor(f, ms).Ready() && PlanFor(f, ms).Rebuilt(|Saved(f)|, boot.forest)
    ensures Reloaded(f, heads, boot.modules, boot.forest)
  {
    hide Select;
    var plan, g := PlanFor(f, ms), boot.forest;
    PreNodes(g);
    forall x | x in Saved(f) ensures exists y :: y in boot.modules && Matches(f, x, g, y) {
      ReloadedMatches(plan, g, boot.modules, x);
    }
    var added := ms[|heads|..];
    assert ms == heads + added;
    assert IdsOf(ms)[|heads|..] == IdsOf(added);
    ReloadedRoots(plan, heads, added, g);
    assert (set y | y in boot.modules && y !in heads) == Elems(added) by {
      LateModules(boot.modules, heads, added);
    }
  }

  lemma LateModules(now: seq<MoonModule>, heads: seq<MoonModule>, added: seq<MoonModule>)
    requires NoDup(heads + added) && Elems(now) == Elems(heads + added)
    ensures (set y | y in now && y !in heads) == Elems(added)
  {
    ElemsConcat(heads, added);
    forall i, j | 0 <= i < |heads| && 0 <= j < |added| ensures heads[i] != added[j] {
      assert (heads + added)[i] == heads[i] && (heads + added)[|heads| + j] == added[j];
    }
    assert forall y :: y in now <==> y in Elems(now);
  }

  /** The store module's own caches: the file on disk and the last list written to it. */
  class StateStore {
    var disk: seq<Record>
    var lastList: seq<Record>

    constructor (disk: seq<Record>, lastList: seq<Record>)
      ensures this.disk == disk && this.lastList == lastList
    {
      this.disk, this.lastList := disk, lastList;
    }

    /** Once a second: write the list if it differs from the last one written. */
    method Loop1s(manager: ModuleManager)
      requires manager.Valid()
      modifies this
      ensures lastList == Records(manager.forest)
      ensures disk == if old(lastList) == Records(manager.forest) then old(disk) else Records(manager.forest)
    {
      var list := Snapshot(manager);
      if list != lastList {
        disk := list;
        lastList := list;
      }
    }
  }
}
