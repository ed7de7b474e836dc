/** The module manager: owner list, structural edits, and the depth-first re-sort.

    `forest` is the abstract value. `Valid` says that all three concrete views agree
    with it: the owner list is its depth-first order, and every module's child list and
    parent link are the ones it prescribes.  */
module ModuleManagers {
  import opened Forests
  import opened ForestOps
  import opened Slots
  import opened ChildOrders
  import opened MoonModules

  datatype TypeInfo = TypeInfo(category: string, core: nat, controls: seq<Control>)

  ghost function Link(m: MoonModule?): Option<MoonModule> {
    if m == null then None else Some(m)
  }

  /** The parent flag is raised exactly on a nested module, on the input that accepts the parent. */
  ghost predicate Flagged(m: MoonModule, parent: Option<MoonModule>)
    reads m`parentControlIdx, m`controls
  {
    && |m.controls| <= 127
    && match parent
       case None => m.parentControlIdx == -1
       case Some(p) => m.parentControlIdx == ParentInput(m.controls, p.typ, p.category) >= 0
  }

  ghost predicate Linked(f: Forest<MoonModule>, m: MoonModule)
    reads m`children, m`parent, m`parentControlIdx, m`controls
  {
    && m.children == KidsOf(f, m) && |m.children| <= MAX_CHILDREN
    && Link(m.parent) == ParentOf(f, m)
    && Flagged(m, ParentOf(f, m))
  }

  /** First module with the given id. */
  function Lookup(ms: seq<MoonModule>, id: string): (r: Option<MoonModule>)
    ensures r.Some? ==> r.value in ms && r.value.id == id
    ensures r.None? ==> forall m :: m in ms ==> m.id != id
  {
    if ms == [] then None else if ms[0].id == id then Some(ms[0]) else Lookup(ms[1..], id)
  }

  lemma {:induction false} LookupAt(ms: seq<MoonModule>, i: nat)
    requires i < |ms| && forall j :: 0 <= j < i ==> ms[j].id != ms[i].id
    ensures Lookup(ms, ms[i].id) == Some(ms[i])
  {
    if i > 0 {
      LookupAt(ms[1..], i - 1);
    }
  }

  ghost predicate UniqueIds(ms: seq<MoonModule>) {
    forall a, b :: a in ms && b in ms && a.id == b.id ==> a == b
  }

  lemma {:induction false} LookupUnique(ms: seq<MoonModule>, m: MoonModule)
    requires m in ms && UniqueIds(ms)
    ensures Lookup(ms, m.id) == Some(m)
  {
    if ms[0] != m {
      assert ms == [ms[0]] + ms[1..];
      LookupUnique(ms[1..], m);
    }
  }

  /** Following a text that holds p's id leads to p exactly when the id had room. */
  lemma LinkLeadsBack(ms: seq<MoonModule>, p: MoonModule, c: Control)
    requires p in ms && UniqueIds(ms) && HoldsId(c, p.id)
    ensures Lookup(ms, c.value) == Some(p) <==> Fits(p.id, c)
  {
    LookupUnique(ms, p);
  }

  /** Empty the slot that holds `node`. */
  method TakeSlot(node: MoonModule, src: seq<Option<MoonModule>>,
                  ghost owners: seq<MoonModule>, ghost taken: set<MoonModule>)
    returns (src': seq<Option<MoonModule>>, found: bool)
    requires NoDup(owners) && src == Blank(owners, taken)
    ensures found <==> node in owners && node !in taken
    ensures src' == if found then Blank(owners, taken + {node}) else src
  {
    for i := 0 to |src|
      invariant forall j :: 0 <= j < i ==> src[j] != Some(node)
    {
      if src[i] == Some(node) {
        BlankOne(owners, taken, i);
        return src[i := None], true;
      }
    }
    if node in owners {
      ghost var at :| 0 <= at < |owners| && owners[at] == node;
    }
    return src, false;
  }

  /** The child lists of g's modules are those g prescribes. */
  ghost predicate Shaped(g: Forest<MoonModule>)
    reads set m | m in Nodes(g) :: m`children
  {
    forall m :: m in Nodes(g) ==> m.children == KidsOf(g, m)
  }

  lemma ShapedParts(g: Forest<MoonModule>)
    requires g.Grow? && Distinct(g) && Shaped(g)
    ensures Shaped(g.kids) && Shaped(g.rest) && g.node.children == Roots(g.kids)
  {
  }

  /** Bookkeeping of the walk: with g left of the trees `all`, everything else is taken. */
  ghost predicate Walked<T>(all: Forest<T>, g: Forest<T>, base: set<T>, taken: set<T>, head: seq<T>, out: seq<T>) {
    && Distinct(g) && Nodes(g) <= Nodes(all) && |Pre(g)| <= |Pre(all)|
    && taken == base + (Nodes(all) - Nodes(g))
    && out + Pre(g) == head + Pre(all)
  }

  lemma WalkStart<T>(all: Forest<T>, base: set<T>, head: seq<T>)
    requires Distinct(all)
    ensures Walked(all, all, base, base, head, head)
  {
  }

  lemma WalkStep<T>(all: Forest<T>, g: Forest<T>, base: set<T>, taken: set<T>, head: seq<T>, out: seq<T>)
    requires Walked(all, g, base, taken, head, out) && g.Grow?
    ensures Walked(all, g.rest, base, taken + Nodes(TreeOf(g, g.node)), head, out + Pre(TreeOf(g, g.node)))
    ensures |Pre(g.kids)| < |Pre(all)|
    ensures Distinct(TreeOf(g, g.node)) && Nodes(TreeOf(g, g.node)) <= Nodes(all)
    ensures base !! Nodes(all) ==> taken !! Nodes(TreeOf(g, g.node))
  {
    assert Nodes(TreeOf(g, g.node)) == {g.node} + Nodes(g.kids);
    assert Pre(TreeOf(g, g.node)) == [g.node] + Pre(g.kids);
    assert out + Pre(TreeOf(g, g.node)) + Pre(g.rest) == out + Pre(g);
  }

  lemma WalkEnd<T>(all: Forest<T>, g: Forest<T>, base: set<T>, taken: set<T>, head: seq<T>, out: seq<T>)
    requires Walked(all, g, base, taken, head, out) && Roots(g) == []
    ensures taken == base + Nodes(all) && out == head + Pre(all)
  {
    RootsInNodes(g);
    assert out + Pre(g) == out;
  }

  lemma RootsStep<T>(g: Forest<T>, roots: seq<T>, i: nat)
    requires i < |roots| && Roots(g) == roots[i..]
    ensures g.Grow? && g.node == roots[i] && Roots(g.rest) == roots[i + 1..]
  {
    assert roots[i..] == [roots[i]] + roots[i + 1..];
    assert Roots(g) == [g.node] + Roots(g.rest);
    assert Roots(g)[1..] == Roots(g.rest);
  }

  /** Move `node` and its whole subtree out of `src`, in depth-first order, onto `out`. */
  method Dfs(node: MoonModule, src: seq<Option<MoonModule>>, out: seq<MoonModule>,
             ghost kids: Forest<MoonModule>, ghost owners: seq<MoonModule>, ghost taken: set<MoonModule>)
    returns (src': seq<Option<MoonModule>>, out': seq<MoonModule>)
    requires Distinct(Grow(node, kids, Empty)) && node.children == Roots(kids) && Shaped(kids)
    requires NoDup(owners) && src == Blank(owners, taken)
    requires Nodes(Grow(node, kids, Empty)) <= Elems(owners) && Nodes(Grow(node, kids, Empty)) !! taken
    ensures src' == Blank(owners, taken + Nodes(Grow(node, kids, Empty)))
    ensures out' == out + Pre(Grow(node, kids, Empty))
    decreases |Pre(kids)|
  {
    assert Nodes(Grow(node, kids, Empty)) == {node} + Nodes(kids);
    hide Pre, Distinct, SubOf, ParentOf, Roots, Select, Elems;
    var found: bool;
    src', found := TakeSlot(node, src, owners, taken);
    out' := if found then out + [node] else out;
    ghost var g, base, now := kids, taken + {node}, taken + {node};
    WalkStart(kids, base, out + [node]);
    for i := 0 to |node.children|
      invariant Walked(kids, g, base, now, out + [node], out')
      invariant Roots(g) == node.children[i..] && Shaped(g)
      invariant src' == Blank(owners, now)
    {
      RootsStep(g, node.children, i);
      WalkStep(kids, g, base, now, out + [node], out');
      ShapedParts(g);
      src', out' := Dfs(node.children[i], src', out', g.kids, owners, now);
      now := now + Nodes(TreeOf(g, g.node));
      g := g.rest;
    }
    WalkEnd(kids, g, base, now, out + [node], out');
    TreeWalked(node, kids, taken, out);
  }

  lemma TreeWalked<T>(node: T, kids: Forest<T>, taken: set<T>, out: seq<T>)
    ensures taken + {node} + Nodes(kids) == taken + Nodes(Grow(node, kids, Empty))
    ensures out + [node] + Pre(kids) == out + Pre(Grow(node, kids, Empty))
  {
    assert Nodes(Grow(node, kids, Empty)) == {node} + Nodes(kids);
    assert out + [node] + Pre(kids) == out + ([node] + Pre(kids) + []);
  }

  /** Run Dfs over every root of `f`, in the given order. */
  method DfsAll(roots: seq<MoonModule>, src: seq<Option<MoonModule>>,
                ghost f: Forest<MoonModule>, ghost owners: seq<MoonModule>)
    returns (src': seq<Option<MoonModule>>, out: seq<MoonModule>)
    requires Distinct(f) && roots == Roots(f) && Shaped(f)
    requires NoDup(owners) && Elems(owners) == Nodes(f) && src == Blank(owners, {})
    ensures src' == Blank(owners, Nodes(f)) && out == Pre(f)
  {
    src', out := src, [];
    ghost var g, now := f, {};
    WalkStart(f, {}, []);
    for i := 0 to |roots|
      invariant Walked(f, g, {}, now, [], out)
      invariant Roots(g) == roots[i..] && Shaped(g)
      invariant src' == Blank(owners, now)
    {
      RootsStep(g, roots, i);
      WalkStep(f, g, {}, now, [], out);
      ShapedParts(g);
      src', out := Dfs(roots[i], src', out, g.kids, owners, now);
      now := now + Nodes(TreeOf(g, g.node));
      g := g.rest;
    }
    WalkEnd(f, g, {}, now, [], out);
    assert {} + Nodes(f) == Nodes(f) && [] + Pre(f) == Pre(f);
  }

  /** Teardown of `node`: children first, then the module itself. */
  method RunTeardown(node: MoonModule, log: seq<MoonModule>,
                     ghost kids: Forest<MoonModule>, ghost owners: seq<MoonModule>)
    returns (log': seq<MoonModule>)
    requires Nodes(kids) <= Elems(owners)
    requires Distinct(kids) && node.children == Roots(kids) && Shaped(kids)
    ensures log' == log + Post(kids) + [node]
    decreases |Pre(kids)|
  {
    log' := log;
    ghost var g := kids;
    for i := 0 to |node.children|
      invariant Distinct(g) && |Pre(g)| <= |Pre(kids)| && Nodes(g) <= Nodes(kids)
      invariant Roots(g) == node.children[i..] && Shaped(g)
      invariant log' + Post(g) == log + Post(kids)
    {
      RootsStep(g, node.children, i);
      ShapedParts(g);
      ghost var before, rest := log', g.rest;
      log' := RunTeardown(node.children[i], log', g.kids, owners);
      PostStep(g, before);
      g := rest;
    }
    RootsInNodes(g);
    assert log' + Post(g) == log';
    log' := log' + [node];
  }

  lemma PostStep<T>(g: Forest<T>, log: seq<T>)
    requires g.Grow?
    ensures log + Post(g.kids) + [g.node] + Post(g.rest) == log + Post(g)
  {
  }

  const ENABLED: Control := Control("enabled", Bool, 0, "")

  ghost predicate AllLinked(owners: seq<MoonModule>, f: Forest<MoonModule>)
    reads set m | m in owners :: m`children, set m | m in owners :: m`parent
    reads set m | m in owners :: m`parentControlIdx, set m | m in owners :: m`controls
  {
    forall m :: m in owners ==> Linked(f, m)
  }

  lemma Relisted(a: seq<MoonModule>, b: seq<MoonModule>, f: Forest<MoonModule>)
    requires Elems(a) == Elems(b) && AllLinked(a, f)
    ensures AllLinked(b, f)
  {
    forall m | m in b ensures Linked(f, m) {
      assert m in Elems(b);
      assert m in Elems(a);
    }
  }

  /** All links are as f prescribes, and so are all parent flags except perhaps m's. */
  ghost predicate LinkedBut(owners: seq<MoonModule>, f: Forest<MoonModule>, m: MoonModule)
    reads owners
  {
    forall y :: y in owners ==>
      && y.children == KidsOf(f, y) && |KidsOf(f, y)| <= MAX_CHILDREN
      && Link(y.parent) == ParentOf(f, y)
      && (y != m ==> Flagged(y, ParentOf(f, y)))
  }

  /** As LinkedBut, with m also cut loose from its parent. */
  ghost predicate CutLoose(owners: seq<MoonModule>, f: Forest<MoonModule>, m: MoonModule)
    reads owners
  {
    forall y :: y in owners ==>
      && y.children == Without(KidsOf(f, y), m) && |KidsOf(f, y)| <= MAX_CHILDREN
      && Link(y.parent) == (if y == m then None else ParentOf(f, y))
      && (y != m ==> Flagged(y, ParentOf(f, y)))
  }

  /** The parent's id goes into the input, and the parent flag points at that input. */
  method RaiseParentFlag(m: MoonModule, p: MoonModule, idx: nat)
    requires |m.controls| <= 127 && idx == ParentInput(m.controls, p.typ, p.category)
    modifies m`parentControlIdx, m`controls, m`schemaDirty
    ensures Rewritten(old(m.controls), m.controls, idx, p.id)
    ensures m.parentControlIdx == idx && m.schemaDirty && Flagged(m, Some(p))
  {
    var d := m.controls[idx];
    m.controls := m.controls[idx := d.(value := Clipped(p.id, d.cap))];
    m.parentControlIdx := idx;
    m.schemaDirty := true;
    SameInputs(old(m.controls), m.controls, p);
  }

  class ModuleManager {
    const factories: map<string, TypeInfo>
    var modules: seq<MoonModule>
    /** Modules whose teardown hook has run, in call order. */
    var teardowns: seq<MoonModule>
    ghost var forest: Forest<MoonModule>

    ghost predicate Valid()
      reads this
      reads set m | m in modules :: m`children, set m | m in modules :: m`parent
      reads set m | m in modules :: m`parentControlIdx, set m | m in modules :: m`controls
    {
      && Distinct(forest) && modules == Pre(forest)
      && AllLinked(modules, forest)
      && forall t :: t in factories ==> |factories[t].controls| <= 127
    }

    constructor (factories: map<string, TypeInfo>)
      requires forall t :: t in factories ==> |factories[t].controls| <= 127
      ensures Valid() && forest == Empty && teardowns == [] && this.factories == factories
    {
      this.factories := factories;
      modules, teardowns, forest := [], [], Empty;
    }

    method Find(id: string) returns (r: MoonModule?)
      ensures Link(r) == Lookup(modules, id)
      ensures if r == null then forall j :: 0 <= j < |modules| ==> modules[j].id != id
              else exists i :: 0 <= i < |modules| && modules[i] == r && r.id == id &&
                               forall j :: 0 <= j < i ==> modules[j].id != id
    {
      for i := 0 to |modules|
        invariant forall j :: 0 <= j < i ==> modules[j].id != id
      {
        if modules[i].id == id {
          LookupAt(modules, i);
          return modules[i];
        }
      }
      return null;
    }

    /** Re-sort the owner list to depth-first order. The pointers already describe `f`, and
        the parentless modules already stand in the order of f's roots. */
    method SortDepthFirst(ghost f: Forest<MoonModule>)
      requires Distinct(f) && NoDup(modules) && Elems(modules) == Nodes(f)
      requires AllLinked(modules, f)
      requires Select(modules, Elems(Roots(f))) == Roots(f)
      modifies this`modules, this`forest
      ensures modules == Pre(f) && forest == f && AllLinked(modules, f)
    {
      var roots := CollectRoots(f);
      ghost var owners := modules;
      var src: seq<Option<MoonModule>> := seq(|modules|, i requires 0 <= i < |modules| reads this => Some(modules[i]));
      assert src == Blank(owners, {});
      var out: seq<MoonModule>;
      src, out := DfsAll(roots, src, f, owners);
      PreNodes(f);
      // The safety net finds nothing left behind.
      FilledBlank(owners, Nodes(f));
      SelectNone(owners, Elems(owners) - Nodes(f));
      out := out + Filled(src);
      assert out == Pre(f);
      Relisted(owners, out, f);
      modules := out;
      forest := f;
    }

    /** The modules without a parent, in owner order. */
    method CollectRoots(ghost f: Forest<MoonModule>) returns (roots: seq<MoonModule>)
      requires Distinct(f) && Elems(modules) == Nodes(f)
      requires AllLinked(modules, f)
      ensures roots == Select(modules, Elems(Roots(f)))
    {
      roots := [];
      for i := 0 to |modules|
        invariant roots == Select(modules[..i], Elems(Roots(f)))
      {
        var m := modules[i];
        assert m in Elems(modules);
        ParentlessAreRoots(f, m);
        assert modules[..i + 1] == modules[..i] + [m];
        SelectConcat(modules[..i], [m], Elems(Roots(f)));
        if m.parent == null {
          roots := roots + [m];
        }
      }
      assert modules[..|modules|] == modules;
    }

    /** The registered factory's result, or a bare module for an unknown type. */
    function InfoOf(typ: string): TypeInfo {
      if typ in factories then factories[typ] else TypeInfo("system", 0, [ENABLED])
    }

    /** Links never leave the owner list, and parent and child links mirror each other. */
    lemma LinksStayInside(m: MoonModule, but: MoonModule)
      requires Distinct(forest) && modules == Pre(forest) && LinkedBut(modules, forest, but) && m in modules
      ensures forall i :: 0 <= i < |m.children| ==> m.children[i] in modules && m.children[i].parent == m
      ensures m.parent != null ==> m.parent in modules && m in m.parent.children
    {
      PreNodes(forest);
      assert m in Elems(modules);
      SubOfNodes(forest, m);
      RootsInNodes(SubOf(forest, m));
      forall i | 0 <= i < |m.children| ensures m.children[i] in modules && m.children[i].parent == m {
        assert m.children[i] in Elems(KidsOf(forest, m));
        assert m.children[i] in Elems(modules);
        ParentChildInverse(forest, m, m.children[i]);
      }
      if m.parent != null {
        ParentInside(forest, m);
        assert m.parent in Elems(modules);
        ParentChildInverse(forest, m.parent, m);
      }
    }

    method Add(typ: string, id: string) returns (m: MoonModule)
      requires Valid()
      modifies this`modules, this`forest
      ensures Valid() && fresh(m)
      ensures forest == Append(old(forest), Leaf(m)) && modules == old(modules) + [m]
      ensures m.id == id && m.typ == typ
      ensures typ in factories ==> TypeInfo(m.category, m.core, m.controls) == factories[typ]
      ensures typ !in factories ==> m.category == "system" && m.core == 0 && m.controls == [ENABLED]
    {
      var info := InfoOf(typ);
      m := new MoonModule(id, typ, info.category, info.core, info.controls);
      PreNodes(forest);
      assert m !in modules;
      assert m !in Nodes(forest) by { assert m !in Elems(modules); }
      assert Nodes(Leaf(m)) == {m} && Distinct(Leaf(m));
      assert Pre(Leaf(m)) == [m] + [] + [];
      AppendNodes(forest, Leaf(m));
      AppendOrder(forest, Leaf(m));
      ghost var f := Append(forest, Leaf(m));
      forall y | y in modules + [m] ensures Linked(f, y) {
        assert y in Elems(modules) || y == m;
        AppendLinks(forest, Leaf(m), y);
      }
      modules, forest := modules + [m], f;
    }

    /** Take m out of its parent's child list. */
    method Detach(m: MoonModule)
      requires Distinct(forest) && modules == Pre(forest) && m in modules && LinkedBut(modules, forest, m)
      modifies set y | y in modules :: y`children, set y | y in modules :: y`parent
      ensures CutLoose(modules, forest, m)
    {
      LinksStayInside(m, m);
      ghost var p := m.parent;
      if m.parent != null { m.parent.RemoveChild(m); }
      PreNodes(forest);
      forall y | y in modules
        ensures y.children == Without(KidsOf(forest, y), m)
        ensures Link(y.parent) == (if y == m then None else ParentOf(forest, y))
        ensures (y != m ==> Flagged(y, ParentOf(forest, y))) && |KidsOf(forest, y)| <= MAX_CHILDREN
      {
        assert y in Elems(modules);
        SubOfNodes(forest, y);
        DistinctRoots(SubOf(forest, y));
        ParentChildInverse(forest, y, m);
        if y == p {
          RemoveFirstWithout(KidsOf(forest, y), m);
        } else {
          WithoutAbsent(KidsOf(forest, y), m);
        }
      }
    }

    /** Cutting m loose leaves its own subtree intact. */
    lemma SubtreeShaped(m: MoonModule)
      requires Distinct(forest) && modules == Pre(forest) && m in modules && CutLoose(modules, forest, m)
      ensures m.children == KidsOf(forest, m) && Shaped(SubOf(forest, m))
      ensures Nodes(SubOf(forest, m)) <= Elems(modules) && Distinct(TreeOf(forest, m))
      ensures Nodes(TreeOf(forest, m)) <= Elems(modules) && m in Nodes(forest)
    {
      var s := SubOf(forest, m);
      PreNodes(forest);
      SubOfNodes(forest, m);
      RootsInNodes(s);
      WithoutAbsent(Roots(s), m);
      assert m in Elems(modules);
      forall y | y in Nodes(s) ensures y.children == KidsOf(s, y) {
        assert y in Elems(modules);
        SubOfSubOf(forest, m, y);
        SubOfNodes(s, y);
        RootsInNodes(SubOf(s, y));
        WithoutAbsent(KidsOf(s, y), m);
      }
    }

    /** Delete a module and everything nested below it. */
    method Remove(id: string) returns (ok: bool)
      requires Valid()
      modifies this`modules, this`teardowns, this`forest
      modifies set y | y in modules :: y`children, set y | y in modules :: y`parent
      ensures Valid()
      ensures ok <==> Lookup(old(modules), id).Some?
      ensures !ok ==> forest == old(forest) && teardowns == old(teardowns)
      ensures ok ==>
                var m := Lookup(old(modules), id).value;
                && forest == Prune(old(forest), m)
                && teardowns == old(teardowns) + Post(TreeOf(old(forest), m))
    {
      var m := Find(id);
      if m == null { return false; }
      ghost var f, owners := forest, modules;
      Detach(m);
      TeardownSubtree(m);
      EraseSubtree(m);
      PrunedValid(f, m, owners);
      return true;
    }

    method TeardownSubtree(m: MoonModule)
      requires Distinct(forest) && modules == Pre(forest) && m in modules && CutLoose(modules, forest, m)
      modifies this`teardowns
      ensures CutLoose(modules, forest, m)
      ensures teardowns == old(teardowns) + Post(TreeOf(forest, m))
    {
      SubtreeShaped(m);
      teardowns := RunTeardown(m, teardowns, SubOf(forest, m), modules);
      assert Post(TreeOf(forest, m)) == Post(SubOf(forest, m)) + [m];
    }

    /** Move m's subtree out of the owner list and close the gaps. */
    method EraseSubtree(m: MoonModule)
      requires Distinct(forest) && modules == Pre(forest) && m in modules && CutLoose(modules, forest, m)
      modifies this`modules, this`forest
      ensures forest == Prune(old(forest), m) && modules == Pre(forest)
      ensures CutLoose(old(modules), old(forest), m)
    {
      ghost var f := forest;
      SubtreeShaped(m);
      DistinctNoDup(f);
      var slots: seq<Option<MoonModule>> := seq(|modules|, i requires 0 <= i < |modules| reads this => Some(modules[i]));
      assert slots == Blank(modules, {});
      var dead: seq<MoonModule>;
      slots, dead := Dfs(m, slots, [], SubOf(f, m), modules, {});
      assert {} + Nodes(TreeOf(f, m)) == Nodes(TreeOf(f, m));
      CutSubtree(f, m);
      modules, forest := Filled(slots), Prune(f, m);
    }

    lemma PrunedValid(f: Forest<MoonModule>, m: MoonModule, owners: seq<MoonModule>)
      requires Distinct(f) && owners == Pre(f) && m in owners
      requires modules == Pre(Prune(f, m)) && forest == Prune(f, m)
      requires CutLoose(owners, f, m)
      requires forall t :: t in factories ==> |factories[t].controls| <= 127
      ensures Valid()
    {
      PruneNodes(f, m);
      PreNodes(f);
      PreNodes(Prune(f, m));
      assert m in Elems(owners);
      forall y | y in modules ensures Linked(forest, y) {
        assert y in Elems(modules);
        assert y in Elems(owners);
        PruneLinks(f, m, y);
        WithoutLength(KidsOf(f, y), m);
      }
    }

    /** Reparent to the top level: lower the parent flag, detach, re-sort. */
    method PromoteToRoot(m: MoonModule)
      requires Valid() && m in modules
      modifies this`modules, this`forest, m`parentControlIdx
      modifies set y | y in modules :: y`children, set y | y in modules :: y`parent
      ensures Valid() && forest == Promote(old(forest), m)
    {
      ghost var f := forest;
      m.parentControlIdx := -1;
      Detach(m);
      PromotedLinks(f, m);
      SortDepthFirst(Promote(f, m));
    }

    lemma PromotedLinks(f: Forest<MoonModule>, m: MoonModule)
      requires Distinct(f) && modules == Pre(f) && m in modules
      requires CutLoose(modules, f, m) && Flagged(m, None)
      ensures AllLinked(modules, Promote(f, m)) && Distinct(Promote(f, m))
      ensures NoDup(modules) && Elems(modules) == Nodes(Promote(f, m))
      ensures Select(modules, Elems(Roots(Promote(f, m)))) == Roots(Promote(f, m))
    {
      PreNodes(f);
      DistinctNoDup(f);
      assert m in Elems(modules);
      PromoteNodes(f, m);
      PromoteOrder(f, m);
      forall y | y in modules ensures Linked(Promote(f, m), y) {
        assert y in Elems(modules);
        PromoteLinks(f, m, y);
        WithoutLength(KidsOf(f, y), m);
      }
    }

    /** Write the parent's id into the child's accepting input, raise the flag, relink, re-sort. */
    method Nest(m: MoonModule, p: MoonModule, idx: nat)
      requires Valid() && m in modules && p in modules && p !in Nodes(TreeOf(forest, m))
      requires idx == ParentInput(m.controls, p.typ, p.category)
      requires |p.children| < MAX_CHILDREN
      modifies this`modules, this`forest, m`parentControlIdx, m`controls, m`schemaDirty
      modifies set y | y in modules :: y`children, set y | y in modules :: y`parent
      ensures Valid() && forest == Move(old(forest), m, p)
      ensures m.parent == p && m.parentControlIdx == idx && m.schemaDirty
      ensures Rewritten(old(m.controls), m.controls, idx, p.id)
      ensures UniqueIds(old(modules)) ==>
                (Lookup(modules, m.controls[idx].value) == Some(p) <==> Fits(p.id, m.controls[idx]))
    {
      ghost var f, ms := forest, modules;
      RaiseParentFlag(m, p, idx);
      Relink(m, p);
      SortDepthFirst(Move(f, m, p));
      InputLeadsBack(ms, m, p, idx);
    }

    lemma InputLeadsBack(ms: seq<MoonModule>, m: MoonModule, p: MoonModule, idx: nat)
      requires Distinct(forest) && modules == Pre(forest) && Elems(ms) == Nodes(forest) && p in ms
      requires idx < |m.controls| && HoldsId(m.controls[idx], p.id)
      ensures UniqueIds(ms) ==> (Lookup(modules, m.controls[idx].value) == Some(p) <==> Fits(p.id, m.controls[idx]))
    {
      PreNodes(forest);
      assert forall y :: y in modules <==> y in Elems(modules);
      assert forall y :: y in ms <==> y in Elems(ms);
      if UniqueIds(ms) {
        LinkLeadsBack(modules, p, m.controls[idx]);
      }
    }

    /** Detach m from its old parent, if that is another one, and attach it to p. */
    method Relink(m: MoonModule, p: MoonModule)
      requires Distinct(forest) && modules == Pre(forest) && m in modules && p in modules
      requires p !in Nodes(TreeOf(forest, m)) && LinkedBut(modules, forest, m) && Flagged(m, Some(p))
      requires |p.children| < MAX_CHILDREN
      modifies set y | y in modules :: y`children, set y | y in modules :: y`parent
      ensures AllLinked(modules, Move(forest, m, p)) && Distinct(Move(forest, m, p)) && m.parent == p
      ensures NoDup(modules) && Elems(modules) == Nodes(Move(forest, m, p))
      ensures Select(modules, Elems(Roots(Move(forest, m, p)))) == Roots(Move(forest, m, p))
    {
      RelinkTarget(m, p);
      if m.parent != p {
        WithoutLength(p.children, m);
        Detach(m);
        Attach(m, p);
      }
    }

    /** Hang the cut-loose m at the end of p's children. */
    method Attach(m: MoonModule, p: MoonModule)
      requires Distinct(forest) && modules == Pre(forest) && m in modules && p in modules && m != p
      requires p !in Nodes(TreeOf(forest, m)) && CutLoose(modules, forest, m) && Flagged(m, Some(p))
      requires |p.children| < MAX_CHILDREN && ParentOf(forest, m) != Some(p)
      modifies p`children, m`parent
      ensures AllLinked(modules, Move(forest, m, p)) && m.parent == p
    {
      p.AddChild(m);
      forall y | y in modules ensures |Without(KidsOf(forest, y), m)| <= |KidsOf(forest, y)| {
        WithoutLength(KidsOf(forest, y), m);
      }
      MovedLinks(m, p);
    }

    lemma RelinkTarget(m: MoonModule, p: MoonModule)
      requires Distinct(forest) && modules == Pre(forest) && m in modules && p in modules
      requires p !in Nodes(TreeOf(forest, m))
      ensures Distinct(Move(forest, m, p)) && p != m
      ensures NoDup(modules) && Elems(modules) == Nodes(Move(forest, m, p))
      ensures Select(modules, Elems(Roots(Move(forest, m, p)))) == Roots(Move(forest, m, p))
    {
      PreNodes(forest);
      DistinctNoDup(forest);
      assert m in Elems(modules) && p in Elems(modules);
      MoveNodes(forest, m, p);
    }

    lemma MovedLinks(m: MoonModule, p: MoonModule)
      requires Distinct(forest) && modules == Pre(forest) && m in modules && p in modules
      requires p !in Nodes(TreeOf(forest, m)) && ParentOf(forest, m) != Some(p)
      requires forall y :: y in modules ==>
        && y.children == Without(KidsOf(forest, y), m) + (if y == p then [m] else [])
        && |y.children| <= MAX_CHILDREN
        && Link(y.parent) == (if y == m then Some(p) else ParentOf(forest, y))
        && Flagged(y, if y == m then Some(p) else ParentOf(forest, y))
      ensures AllLinked(modules, Move(forest, m, p))
    {
      PreNodes(forest);
      assert m in Elems(modules) && p in Elems(modules);
      forall y | y in modules ensures Linked(Move(forest, m, p), y) {
        assert y in Elems(modules);
        MoveLinks(forest, m, p, y);
      }
    }

    /** What `reparent` demands of its caller: the new parent is not inside the moved subtree,
        and its child counter has room. Nothing is demanded when an id is unknown. */
    ghost predicate MayReparent(id: string, newParentId: string)
      reads this, modules
    {
      var m, p := Lookup(modules, id), Lookup(modules, newParentId);
      newParentId != "" && m.Some? && p.Some? ==>
        p.value !in Nodes(TreeOf(forest, m.value)) && |p.value.children| < MAX_CHILDREN
    }

    /** `reparent` accepts: the module exists, and the target is the top level or an existing
        module for which it has an input. */
    ghost predicate Accepts(id: string, newParentId: string)
      reads this, modules
    {
      var m, p := Lookup(modules, id), Lookup(modules, newParentId);
      && m.Some?
      && (newParentId == "" || (p.Some? && ParentInput(m.value.controls, p.value.typ, p.value.category) >= 0))
    }

    method Reparent(id: string, newParentId: string) returns (ok: bool)
      requires Valid() && MayReparent(id, newParentId)
      modifies this`modules, this`forest, modules
      ensures Valid()
      ensures ok <==> old(Accepts(id, newParentId))
      ensures !ok ==> forest == old(forest)
      ensures ok ==>
                var m, p := Lookup(old(modules), id).value, Lookup(old(modules), newParentId);
                forest == if newParentId == "" then Promote(old(forest), m) else Move(old(forest), m, p.value)
      ensures forall y :: y in old(modules) && (!ok || newParentId == "" || y.id != id) ==> y.controls == old(y.controls)
      ensures ok && newParentId != "" ==>
                var m, p := Lookup(old(modules), id).value, Lookup(old(modules), newParentId).value;
                var i := ParentInput(old(m.controls), p.typ, p.category);
                && Rewritten(old(m.controls), m.controls, i, p.id)
                && (UniqueIds(old(modules)) ==>
                      (Lookup(modules, m.controls[i].value) == Some(p) <==> Fits(p.id, m.controls[i])))
    {
      var m := Find(id);
      if m == null { return false; }
      if newParentId == "" {
        PromoteToRoot(m);
        return true;
      }
      var p := Find(newParentId);
      if p == null { return false; }
      assert Flagged(m, ParentOf(forest, m));
      var idx := m.ParentInputIdx(p);
      if idx < 0 { return false; }
      Nest(m, p, idx);
      return true;
    }

    /** The entries of a reorder request, looked up. */
    function Requested(ids: seq<string>): (r: seq<Option<MoonModule>>)
      reads this
      ensures |r| == |ids| && forall i :: 0 <= i < |ids| ==> r[i] == Lookup(modules, ids[i])
    {
      seq(|ids|, i requires 0 <= i < |ids| reads this => Lookup(modules, ids[i]))
    }

    /** Nested reorder: the children of `parentId` in the requested order. */
    method ReorderChildrenOf(parentId: string, ids: seq<string>)
      requires Valid()
      requires Lookup(modules, parentId).Some? ==>
                 !CounterFooled(Requested(ids), KidsOf(forest, Lookup(modules, parentId).value))
      modifies this`modules, this`forest
      modifies set y | y in modules :: y`children
      ensures Valid()
      ensures forest ==
              var p := Lookup(old(modules), parentId);
              if p.None? then old(forest)
              else
                var kids := KidsOf(old(forest), p.value);
                if RequestedOnce(old(Requested(ids)), kids)
                then Reorder(old(forest), p.value, Collected(old(Requested(ids)), kids))
                else old(forest)
      ensures var p := Lookup(old(modules), parentId);
              p.Some? ==>
                var kids, after := KidsOf(old(forest), p.value), KidsOf(forest, p.value);
                if RequestedOnce(old(Requested(ids)), kids) then Rearranged(old(Requested(ids)), kids, after)
                else after == kids
    {
      var p := Find(parentId);
      if p == null { return; }
      var newOrder := CollectOrder(p, ids);
      CollectedFits(p, old(Requested(ids)));
      var ok := p.ReorderChildren(newOrder, |newOrder| % 256);
      RearrangedLinks(p, newOrder, old(Requested(ids)), ok);
      NewOrder(forest, p, old(Requested(ids)));
      SortDepthFirst(if ok then Reorder(forest, p, newOrder) else forest);
    }

    /** Walk the request, then the present children, into one candidate order. */
    method CollectOrder(p: MoonModule, ids: seq<string>) returns (newOrder: seq<MoonModule>)
      requires Valid() && p in modules
      ensures newOrder == Collected(Requested(ids), p.children)
    {
      newOrder := CollectListed(p, ids);
      SubOfNodes(forest, p);
      DistinctRoots(SubOf(forest, p));
      newOrder := AppendUnlisted(newOrder, p.children);
    }

    method CollectListed(p: MoonModule, ids: seq<string>) returns (newOrder: seq<MoonModule>)
      requires Valid() && p in modules
      ensures newOrder == Listed(Requested(ids), p.children)
    {
      hide Lookup, Nodes, Distinct, SubOf, ParentOf, Pre, Roots, Select;
      ghost var requested, kids := Requested(ids), p.children;
      newOrder := [];
      for i := 0 to |ids|
        invariant newOrder == Listed(requested[..i], kids)
      {
        var m := Find(ids[i]);
        ChildIffParent(p, m);
        ListedNext(requested, i, kids);
        if m != null && m.parent == p {
          newOrder := newOrder + [m];
        }
      }
      assert requested[..|ids|] == requested;
    }

    lemma ChildIffParent(p: MoonModule, m: MoonModule?)
      requires Valid() && p in modules && (m != null ==> m in modules)
      ensures m != null ==> (m.parent == p <==> m in p.children)
    {
      if m != null {
        PreNodes(forest);
        assert p in Elems(modules);
        ParentChildInverse(forest, p, m);
      }
    }

    /** The length test on 8 bits is the length test. */
    lemma CollectedFits(p: MoonModule, requested: seq<Option<MoonModule>>)
      requires Valid() && p in modules && !CounterFooled(requested, KidsOf(forest, p))
      ensures var n := |Collected(requested, KidsOf(forest, p))|;
              n % 256 == |KidsOf(forest, p)| <==> n == |KidsOf(forest, p)|
    {
      assert Linked(forest, p);
      SubOfNodes(forest, p);
      DistinctRoots(SubOf(forest, p));
      CollectedLength(requested, KidsOf(forest, p));
      CounterDecidesExactly(requested, KidsOf(forest, p));
    }

    /** After the length test, the links describe the reordered forest or the old one. */
    lemma RearrangedLinks(p: MoonModule, newOrder: seq<MoonModule>, requested: seq<Option<MoonModule>>, ok: bool)
      requires Distinct(forest) && modules == Pre(forest) && p in modules
      requires newOrder == Collected(requested, KidsOf(forest, p))
      requires |KidsOf(forest, p)| <= MAX_CHILDREN
      requires ok <==> |newOrder| == |KidsOf(forest, p)|
      requires forall y :: y in modules ==>
        && y.children == (if y == p && ok then newOrder else KidsOf(forest, y)) && |KidsOf(forest, y)| <= MAX_CHILDREN
        && Link(y.parent) == ParentOf(forest, y) && Flagged(y, ParentOf(forest, y))
      ensures ok <==> NoDup(Listed(requested, KidsOf(forest, p)))
      ensures var f := if ok then Reorder(forest, p, newOrder) else forest;
              && Distinct(f) && NoDup(modules) && Elems(modules) == Nodes(f) && AllLinked(modules, f)
              && Select(modules, Elems(Roots(f))) == Roots(f)
    {
      var kids := KidsOf(forest, p);
      PreNodes(forest);
      DistinctNoDup(forest);
      SubOfNodes(forest, p);
      DistinctRoots(SubOf(forest, p));
      CollectedLength(requested, kids);
      assert p in Elems(modules);
      if ok {
        ReorderOrder(forest, p, newOrder);
        ReorderLinks(forest, p, newOrder, p);
        forall y | y in modules ensures Linked(Reorder(forest, p, newOrder), y) {
          ReorderLinks(forest, p, newOrder, y);
        }
      } else {
        SelectRoots(forest, Elems(Roots(forest)));
        SelectAll(Roots(forest), Elems(Roots(forest)));
      }
    }
  }

  /** After an accepted reorder p's children are the collected ones, in the promised order. */
  lemma NewOrder(f: Forest<MoonModule>, p: MoonModule, requested: seq<Option<MoonModule>>)
    requires Distinct(f) && p in Pre(f)
    ensures var kids := KidsOf(f, p);
            && (RequestedOnce(requested, kids) <==> NoDup(Listed(requested, kids)))
            && (RequestedOnce(requested, kids) ==>
                  Rearranged(requested, kids, KidsOf(Reorder(f, p, Collected(requested, kids)), p)))
  {
    hide Rearranged, RequestedOnce;
    var kids := KidsOf(f, p);
    PreNodes(f);
    assert p in Elems(Pre(f));
    SubOfNodes(f, p);
    DistinctRoots(SubOf(f, p));
    CollectedIsRearranged(requested, kids);
    CollectedLength(requested, kids);
    if NoDup(Listed(requested, kids)) {
      ReorderLinks(f, p, Collected(requested, kids), p);
    }
  }

  /** Append the children that are not listed, in their present order. */
  method AppendUnlisted(listed: seq<MoonModule>, kids: seq<MoonModule>) returns (newOrder: seq<MoonModule>)
    requires NoDup(kids)
    ensures newOrder == listed + Unlisted(listed, kids)
  {
    newOrder := listed;
    ghost var keep := Elems(kids) - Elems(listed);
    for i := 0 to |kids|
      invariant newOrder == listed + Select(kids[..i], keep)
    {
      var c := kids[i];
      assert kids[..i + 1] == kids[..i] + [c];
      SelectConcat(kids[..i], [c], keep);
      assert c in newOrder <==> c in listed by {
        ElemsSelect(kids[..i], keep);
        ElemsConcat(listed, Select(kids[..i], keep));
        assert c !in kids[..i];
        assert c in newOrder <==> c in Elems(newOrder);
      }
      if c !in newOrder {
        newOrder := newOrder + [c];
      }
    }
    assert kids[..|kids|] == kids;
  }

  /** Changing the text of one control keeps every input lookup. */
  lemma SameInputs(a: seq<Control>, b: seq<Control>, p: MoonModule)
    requires |a| == |b| && (forall i :: 0 <= i < |a| ==> a[i].key == b[i].key && a[i].ctype == b[i].ctype)
    ensures ParentInput(a, p.typ, p.category) == ParentInput(b, p.typ, p.category)
  {
    SameFirst(a, b, p.typ);
    SameFirst(a, b, p.category);
    SameFirst(a, b, "source");
  }

  lemma {:induction false} SameFirst(a: seq<Control>, b: seq<Control>, key: string)
    requires |a| == |b| && (forall i :: 0 <= i < |a| ==> a[i].key == b[i].key && a[i].ctype == b[i].ctype)
    ensures FirstText(a, key) == FirstText(b, key)
  {
    if |a| > 0 {
      SameFirst(a[..|a| - 1], b[..|b| - 1], key);
    }
  }

  lemma {:induction false} WithoutLength<T>(s: seq<T>, x: T)
    ensures |Without(s, x)| <= |s|
  {
    if s != [] {
      WithoutLength(s[1..], x);
    }
  }
}
