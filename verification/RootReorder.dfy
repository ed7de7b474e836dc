/** Reordering the top level, as the manager's code stands.  */
module RootReorders {
  import opened Forests
  import opened ForestOps
  import opened ModuleManagers
  import opened MoonModules
  import opened Slots

  /** The modules with a parent. */
  ghost function Nested(manager: ModuleManager): set<MoonModule>
    reads manager, manager.modules
  {
    set m | m in manager.modules && m.parent != null
  }

  /** What the owner list becomes: the collected top-level modules are moved out of their slots, and
      only empty entries among them are moved back. The re-sort that follows finds no top-level
      module and keeps the rest as it is. */
  method ReorderRoots(manager: ModuleManager, ids: seq<string>) returns (modules: seq<MoonModule>)
    requires manager.Valid()
    ensures modules == Select(manager.modules, Nested(manager))
  {
    hide Filled, Select, Pre, Nodes, Distinct, SubOf, ParentOf, Roots;
    ghost var owners, nested := manager.modules, Nested(manager);
    DistinctNoDup(manager.forest);
    var src: seq<Option<MoonModule>> :=
      seq(|manager.modules|, i requires 0 <= i < |manager.modules| reads manager => Some(manager.modules[i]));
    var out: seq<Option<MoonModule>> := [];
    ghost var taken: set<MoonModule> := {};
    assert src == Blank(owners, taken);
    for k := 0 to |ids|
      invariant src == Blank(owners, taken) && taken !! nested && taken <= Elems(owners)
      invariant forall i :: 0 <= i < |out| ==> out[i].Some?
    {
      for j := 0 to |src|
        invariant src == Blank(owners, taken) && taken !! nested && taken <= Elems(owners)
      {
        if src[j].Some? && src[j].value.id == ids[k] && src[j].value.parent == null {
          out := out + [src[j]];
          BlankOne(owners, taken, j);
          taken := taken + {owners[j]};
          src := src[j := None];
          break;
        }
      }
    }
    for j := 0 to |src|
      invariant src == Blank(owners, taken) && taken !! nested && taken <= Elems(owners)
      invariant forall i :: 0 <= i < |out| ==> out[i].Some?
      invariant forall i :: 0 <= i < j ==> owners[i] in taken || owners[i] in nested
    {
      if src[j].Some? && src[j].value.parent == null {
        out := out + [src[j]];
        BlankOne(owners, taken, j);
        taken := taken + {owners[j]};
        src := src[j := None];
      }
    }
    var back: seq<Option<MoonModule>> := [];
    for i := 0 to |out|
      invariant back == []
    {
      if out[i] == None {
        back := back + [None];
      }
    }
    FilledBlank(owners, taken);
    assert back + src == src;
    modules := Filled(back + src);
    SelectSame(owners, Elems(owners) - taken, nested);
  }

  /** No module is lost exactly when there was none: a manager with modules has a top-level one. */
  lemma RootReorderLosesRoots(manager: ModuleManager)
    requires manager.Valid()
    ensures Select(manager.modules, Nested(manager)) == manager.modules <==> manager.modules == []
    ensures forall m :: m in manager.modules && m.parent == null ==> m !in Select(manager.modules, Nested(manager))
  {
    var kept := Select(manager.modules, Nested(manager));
    ElemsSelect(manager.modules, Nested(manager));
    forall m | m in manager.modules && m.parent == null ensures m !in kept {
      assert m !in Elems(kept);
    }
    if manager.modules != [] {
      var f, m := manager.forest, manager.modules[0];
      assert f.Grow? && m == f.node;
      PreNodes(f);
      assert m in Elems(manager.modules);
      ParentlessAreRoots(f, m);
      assert Linked(f, m);
    }
  }
}
