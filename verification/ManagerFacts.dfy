/** What the manager's invariant and its removal mean, in terms of modules and lists alone.  */
module ManagerFacts {
  import opened Forests
  import opened ForestOps
  import opened ChildOrders
  import opened MoonModules
  import opened ModuleManagers

  /** The three views in every valid state: the owner list repeats nothing; links stay inside it;
      parent and child links are inverse; a module has a parent exactly when its parent flag is up;
      and a module and everything below it stand together in the owner list, the module first. */
  lemma ViewsAgree(manager: ModuleManager, m: MoonModule)
    requires manager.Valid() && m in manager.modules
    ensures NoDup(manager.modules) && NoDup(m.children) && m !in m.children
    ensures forall c :: c in m.children ==> c in manager.modules && c.parent == m
    ensures m.parent != null ==> m.parent in manager.modules && m in m.parent.children
    ensures m.parent == null <==> m.parentControlIdx == -1
    ensures exists i, j :: 0 <= i <= j <= |manager.modules| && manager.modules[i..j] == Pre(TreeOf(manager.forest, m))
  {
    var f := manager.forest;
    assert Linked(f, m);
    DistinctNoDup(f);
    PreNodes(f);
    SubOfNodes(f, m);
    DistinctRoots(SubOf(f, m));
    RootIn(SubOf(f, m), m);
    manager.LinksStayInside(m, m);
    var before, after := PruneOrder(f, m);
    var tree := Pre(TreeOf(f, m));
    assert manager.modules[|before|..|before| + |tree|] == tree;
  }

  /** The owner list is depth-first: a module stands before its children, and these stand in child
      order. */
  lemma DepthFirstOrder(manager: ModuleManager, m: MoonModule)
    requires manager.Valid() && m in manager.modules
    ensures forall i :: 0 <= i < |m.children| ==> Before(manager.modules, m, m.children[i])
    ensures forall i, j :: 0 <= i < j < |m.children| ==> Before(manager.modules, m.children[i], m.children[j])
  {
    hide Before, Select, Roots;
    var f := manager.forest;
    assert Linked(f, m);
    PreNodes(f);
    assert m in Elems(manager.modules);
    var before, after := PruneOrder(f, m);
    var below := Pre(SubOf(f, m));
    PreNodes(SubOf(f, m));
    RootsInNodes(SubOf(f, m));
    SelectKids(f, m);
    assert Pre(TreeOf(f, m)) == [m] + below;
    forall i | 0 <= i < |m.children| ensures Before(manager.modules, m, m.children[i]) {
      assert m.children[i] in Elems(KidsOf(f, m));
      assert m.children[i] in Elems(below);
      HeadBefore(before, m, below, after, m.children[i]);
    }
    forall i, j | 0 <= i < j < |m.children| ensures Before(manager.modules, m.children[i], m.children[j]) {
      SelectAt(manager.modules, Elems(KidsOf(f, m)), i, j);
    }
  }

  lemma HeadBefore<T>(a: seq<T>, x: T, b: seq<T>, c: seq<T>, y: T)
    requires y in b
    ensures Before(a + ([x] + b) + c, x, y)
  {
    var k :| 0 <= k < |b| && b[k] == y;
    var s := a + ([x] + b) + c;
    assert s[|a|] == x && s[|a| + 1 + k] == y;
  }

  // ---- Reordered children, by their ids ----

  ghost predicate LookedUp(ms: seq<MoonModule>, ids: seq<string>, requested: seq<Option<MoonModule>>) {
    |requested| == |ids| && forall i :: 0 <= i < |ids| ==> requested[i] == Lookup(ms, ids[i])
  }

  /** Where ids are unique, a reorder puts children whose ids are requested before the others and
      in the order of the request, and keeps the order of the others. */
  lemma OrderById(ms: seq<MoonModule>, ids: seq<string>, requested: seq<Option<MoonModule>>,
                  kids: seq<MoonModule>, after: seq<MoonModule>, i: nat, j: nat)
    requires UniqueIds(ms) && Elems(kids) <= Elems(ms) && LookedUp(ms, ids, requested)
    requires Rearranged(requested, kids, after) && i < j < |after|
    ensures var a, b := after[i], after[j];
            if b.id in ids then Before(ids, a.id, b.id) else a.id in ids || Before(kids, a, b)
  {
    hide Before, NoDup;
    var a, b := after[i], after[j];
    assert a in Elems(after) && b in Elems(after);
    RequestedById(ms, ids, requested, a);
    RequestedById(ms, ids, requested, b);
    assert InOrder(requested, kids, a, b);
    if b.id in ids {
      BeforeById(ms, ids, requested, a, b);
    }
  }

  lemma RequestedById(ms: seq<MoonModule>, ids: seq<string>, requested: seq<Option<MoonModule>>, c: MoonModule)
    requires UniqueIds(ms) && c in Elems(ms) && LookedUp(ms, ids, requested)
    ensures Some(c) in requested <==> c.id in ids
  {
    LookupUnique(ms, c);
    if c.id in ids {
      var k :| 0 <= k < |ids| && ids[k] == c.id;
      assert requested[k] == Some(c);
    }
  }

  lemma BeforeById(ms: seq<MoonModule>, ids: seq<string>, requested: seq<Option<MoonModule>>, a: MoonModule, b: MoonModule)
    requires LookedUp(ms, ids, requested) && Before(requested, Some(a), Some(b))
    ensures Before(ids, a.id, b.id)
  {
    var i, j :| 0 <= i < j < |requested| && requested[i] == Some(a) && requested[j] == Some(b);
    assert ids[i] == a.id && ids[j] == b.id;
  }

  /** The code accepts a parent inside the moved subtree: a module that has a "source" input accepts
      itself, and itself is in its own subtree. */
  lemma SelfParentIsAccepted(manager: ModuleManager, m: MoonModule)
    requires manager.Valid() && Lookup(manager.modules, m.id) == Some(m) && m.id != ""
    requires HasInput(m.controls, "source")
    ensures manager.Accepts(m.id, m.id) && m in Nodes(TreeOf(manager.forest, m)) && !manager.MayReparent(m.id, m.id)
  {
    InputFound(m.controls, "source");
  }

  // ---- Removal ----

  /** The survivors keep their relative order. */
  lemma RemovalKeepsOrder<T>(f: Forest<T>, x: T)
    requires Distinct(f) && x in Nodes(f)
    ensures Pre(Prune(f, x)) == Select(Pre(f), Nodes(f) - Nodes(TreeOf(f, x)))
  {
    var keep := Nodes(f) - Nodes(TreeOf(f, x));
    var before, after := PruneOrder(f, x);
    var tree := Pre(TreeOf(f, x));
    PruneNodes(f, x);
    PreNodes(Prune(f, x));
    PreNodes(TreeOf(f, x));
    ElemsConcat(before, after);
    SelectConcat(before + tree, after, keep);
    SelectConcat(before, tree, keep);
    SelectAll(before, keep);
    SelectAll(after, keep);
    SelectNone(tree, keep);
    NilMid(before, after);
  }

  /** No survivor's parent or child link names a removed module. */
  lemma RemovalLeavesNoLink<T>(f: Forest<T>, x: T, y: T)
    requires Distinct(f) && x in Nodes(f) && y in Nodes(Prune(f, x))
    ensures Elems(KidsOf(Prune(f, x), y)) !! Nodes(TreeOf(f, x))
    ensures ParentOf(Prune(f, x), y).Some? ==> ParentOf(Prune(f, x), y).value !in Nodes(TreeOf(f, x))
  {
    var g := Prune(f, x);
    PruneNodes(f, x);
    SubOfNodes(g, y);
    RootsInNodes(SubOf(g, y));
    ParentInside(g, y);
  }

  // ---- Teardown ----

  lemma {:induction false} PostNoDup<T>(f: Forest<T>)
    requires Distinct(f)
    ensures NoDup(Post(f))
  {
    if f.Grow? {
      PostNoDup(f.kids);
      PostNoDup(f.rest);
      PreNodes(f.kids);
      PreNodes(f.rest);
      var k, r := Post(f.kids), Post(f.rest);
      NoDupCons(f.node, r);
      ElemsConcat([f.node], r);
      NoDupConcat(k, [f.node] + r);
      Assoc(k, [f.node], r);
    }
  }

  /** In teardown order y comes right after everything below it. */
  lemma {:induction false} PostSplit<T>(f: Forest<T>, y: T) returns (before: seq<T>, after: seq<T>)
    requires Distinct(f) && y in Nodes(f)
    ensures Post(f) == before + Post(SubOf(f, y)) + [y] + after
  {
    if y == f.node {
      before, after := [], Post(f.rest);
      assert before + Post(f.kids) == Post(f.kids);
    } else if y in Nodes(f.kids) {
      before, after := PostSplit(f.kids, y);
      RegroupTail(before, Post(SubOf(f, y)) + [y], after, [f.node], Post(f.rest));
      Assoc(before, Post(SubOf(f, y)), [y]);
      after := after + [f.node] + Post(f.rest);
    } else {
      before, after := PostSplit(f.rest, y);
      RegroupHead(Post(f.kids) + [f.node], before, Post(SubOf(f, y)), [y], after);
      before := Post(f.kids) + [f.node] + before;
    }
  }

  lemma RegroupTail<T>(a: seq<T>, b: seq<T>, c: seq<T>, d: seq<T>, e: seq<T>)
    ensures a + b + c + d + e == a + b + (c + d + e)
  {
  }

  lemma RegroupHead<T>(p: seq<T>, a: seq<T>, b: seq<T>, c: seq<T>, d: seq<T>)
    ensures p + (a + b + c + d) == p + a + b + c + d
  {
  }

  /** Removal runs the teardown hook once on each removed module, and on each only after all
      modules nested below it. */
  lemma TeardownChildrenFirst<T>(f: Forest<T>, x: T, k: nat)
    requires Distinct(f) && x in Nodes(f) && k < |Post(TreeOf(f, x))|
    ensures NoDup(Post(TreeOf(f, x))) && Elems(Post(TreeOf(f, x))) == Nodes(TreeOf(f, x))
    ensures Nodes(SubOf(f, Post(TreeOf(f, x))[k])) <= Elems(Post(TreeOf(f, x))[..k])
  {
    var t := TreeOf(f, x);
    var log, y := Post(t), Post(t)[k];
    SubOfNodes(f, x);
    PreNodes(t);
    PostNoDup(t);
    assert y in Elems(log);
    var before, after := PostSplit(t, y);
    var below := Post(SubOf(t, y));
    assert log[|before| + |below|] == y;
    assert log[..k] == before + below;
    ElemsConcat(before, below);
    PreNodes(SubOf(t, y));
    if y != x {
      SubOfSubOf(f, x, y);
    }
  }

  lemma SelectPost<T>(f: Forest<T>, keep: set<T>)
    requires f.Grow?
    ensures Select(Post(f), keep) ==
            Select(Post(f.kids), keep) + (if f.node in keep then [f.node] else []) + Select(Post(f.rest), keep)
  {
    SelectConcat(Post(f.kids) + [f.node], Post(f.rest), keep);
    SelectConcat(Post(f.kids), [f.node], keep);
    assert [f.node][1..] == [];
  }

  lemma {:induction false} PostRoots<T>(f: Forest<T>, keep: set<T>)
    requires Distinct(f) && keep * Nodes(f) <= Elems(Roots(f))
    ensures Select(Post(f), keep) == Select(Roots(f), keep)
  {
    hide Post;
    if f == Empty {
      NothingSelected<T>(keep);
    } else {
      RootsInNodes(f.rest);
      ElemsConcat([f.node], Roots(f.rest));
      PreNodes(f.kids);
      SelectPost(f, keep);
      SelectConcat([f.node], Roots(f.rest), keep);
      SelectNone(Post(f.kids), keep);
      PostRoots(f.rest, keep);
    }
  }

  lemma NothingSelected<T>(keep: set<T>)
    ensures Select(Post(Empty), keep) == [] == Select(Roots(Empty), keep)
  {
  }

  lemma {:induction false} PostKids<T>(f: Forest<T>, p: T)
    requires Distinct(f)
    ensures Select(Post(f), Elems(KidsOf(f, p))) == KidsOf(f, p)
  {
    var keep := Elems(KidsOf(f, p));
    RootsInNodes(SubOf(f, p));
    SubOfNodes(f, p);
    if f.Grow? {
      SelectPost(f, keep);
      PreNodes(f.kids);
      PreNodes(f.rest);
      SubOfNodes(f.kids, p);
      SubOfNodes(f.rest, p);
      if p == f.node {
        PostRoots(f.kids, keep);
        SelectAll(Roots(f.kids), keep);
        SelectNone(Post(f.rest), keep);
      } else if p in Nodes(f.kids) {
        PostKids(f.kids, p);
        SelectNone(Post(f.rest), keep);
      } else {
        PostKids(f.rest, p);
        SelectNone(Post(f.kids), keep);
      }
    }
  }

  /** Siblings are torn down in child order. */
  lemma TeardownInChildOrder<T>(f: Forest<T>, x: T, p: T, i: nat, j: nat)
    requires Distinct(f) && x in Nodes(f) && p in Nodes(TreeOf(f, x)) && i < j < |KidsOf(f, p)|
    ensures Before(Post(TreeOf(f, x)), KidsOf(f, p)[i], KidsOf(f, p)[j])
  {
    hide Before;
    var t := TreeOf(f, x);
    SubOfNodes(f, x);
    if p != x {
      SubOfSubOf(f, x, p);
    }
    assert KidsOf(t, p) == KidsOf(f, p);
    PostKids(t, p);
    SelectAt(Post(t), Elems(KidsOf(f, p)), i, j);
  }
}
