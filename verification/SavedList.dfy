/** The saved module list, read off a module tree.  */
module SavedLists {
  import opened Forests
  import opened ForestOps
  import opened MoonModules
  import opened ModuleManagers

  /** One entry of the saved list; an empty parent id means a top-level module. */
  datatype Record = Record(typ: string, id: string, parentId: string)

  const STORE_TYPE := "state-store"

  function IdsOf(ms: seq<MoonModule>): (r: seq<string>)
    ensures |r| == |ms| && forall i :: 0 <= i < |ms| ==> r[i] == ms[i].id
  {
    seq(|ms|, i requires 0 <= i < |ms| => ms[i].id)
  }

  ghost function RecordOf(f: Forest<MoonModule>, m: MoonModule): Record {
    Record(m.typ, m.id, match ParentOf(f, m) case None => "" case Some(p) => p.id)
  }

  /** The modules a snapshot lists, in owner order. */
  ghost function Saved(f: Forest<MoonModule>): seq<MoonModule> {
    Select(Pre(f), Savable(f))
  }

  ghost function Savable(f: Forest<MoonModule>): set<MoonModule> {
    set m | m in Nodes(f) && m.typ != STORE_TYPE
  }

  ghost function RecordList(f: Forest<MoonModule>, ms: seq<MoonModule>): (r: seq<Record>)
    ensures |r| == |ms| && forall i :: 0 <= i < |ms| ==> r[i] == RecordOf(f, ms[i])
  {
    seq(|ms|, i requires 0 <= i < |ms| => RecordOf(f, ms[i]))
  }

  /** The saved list of a manager whose tree is f. */
  ghost function Records(f: Forest<MoonModule>): seq<Record> {
    RecordList(f, Saved(f))
  }

  method Snapshot(manager: ModuleManager) returns (list: seq<Record>)
    requires manager.Valid()
    ensures list == Records(manager.forest)
  {
    ghost var f, ms := manager.forest, manager.modules;
    ghost var kept: seq<MoonModule> := [];
    list := [];
    for i := 0 to |manager.modules|
      invariant kept == Select(ms[..i], Savable(f)) && list == RecordList(f, kept)
    {
      var m := manager.modules[i];
      assert Linked(f, m);
      assert m in Savable(f) <==> m.typ != STORE_TYPE by {
        PreNodes(f);
        assert m in Elems(ms);
      }
      assert ms[..i + 1] == ms[..i] + [m];
      SelectConcat(ms[..i], [m], Savable(f));
      if m.typ != STORE_TYPE {
        list := list + [Record(m.typ, m.id, if m.parent != null then m.parent.id else "")];
        kept := kept + [m];
      }
    }
    assert ms[..|ms|] == ms;
  }

  // ---- Facts about the saved list ----

  lemma SplitAt<T>(s: seq<T>, a: seq<T>, x: T, b: seq<T>, k: nat)
    requires NoDup(s) && s == a + [x] + b && k < |s| && s[k] == x
    ensures s[..k] == a && Elems(a) * Elems(b) == {}
  {
    assert s[|a|] == x;
    forall i, j | 0 <= i < |a| && 0 <= j < |b| ensures a[i] != b[j] {
      assert s[i] == a[i] && s[|a| + 1 + j] == b[j];
    }
  }

  /** No node below x stands before x in depth-first order. */
  lemma ParentFirst<T>(f: Forest<T>, x: T, k: nat)
    requires Distinct(f) && k < |Pre(f)| && Pre(f)[k] == x
    ensures Elems(Pre(f)[..k]) * Nodes(SubOf(f, x)) == {}
  {
    assert x in Nodes(f) by {
      PreNodes(f);
      assert x in Elems(Pre(f));
    }
    var before, after := PruneOrder(f, x);
    DistinctNoDup(f);
    var below := Pre(SubOf(f, x));
    PreNodes(SubOf(f, x));
    ElemsConcat(below, after);
    TreeBlock(before, x, below, after);
    SplitAt(Pre(f), before, x, below + after, k);
  }

  lemma TreeBlock<T>(a: seq<T>, x: T, b: seq<T>, c: seq<T>)
    ensures a + ([x] + b + []) + c == a + [x] + (b + c)
  {
  }

  /** The k-th kept element stands somewhere in s, with the earlier kept ones before it. */
  lemma {:induction false} SelectPrefix<T>(s: seq<T>, keep: set<T>, k: nat) returns (j: nat)
    requires k < |Select(s, keep)|
    ensures j < |s| && s[j] == Select(s, keep)[k] && Select(s[..j], keep) == Select(s, keep)[..k]
  {
    if s[0] in keep && k == 0 {
      j := 0;
    } else {
      var i := SelectPrefix(s[1..], keep, if s[0] in keep then k - 1 else k);
      j := i + 1;
      assert s[..j][1..] == s[1..][..i];
    }
  }

  /** In the saved list too, no descendant precedes its ancestor. */
  lemma SavedParentFirst(f: Forest<MoonModule>, k: nat)
    requires Distinct(f) && k < |Saved(f)|
    ensures Elems(Saved(f)[..k]) * Nodes(SubOf(f, Saved(f)[k])) == {}
  {
    var j := SelectPrefix(Pre(f), Savable(f), k);
    ParentFirst(f, Saved(f)[k], j);
    ElemsSelect(Pre(f)[..j], Savable(f));
  }

  lemma {:induction false} SelectSwap<T>(s: seq<T>, a: set<T>, b: set<T>)
    ensures Select(Select(s, a), b) == Select(Select(s, b), a)
  {
    if s != [] {
      SelectSwap(s[1..], a, b);
      SelectConcat(if s[0] in a then [s[0]] else [], Select(s[1..], a), b);
      SelectConcat(if s[0] in b then [s[0]] else [], Select(s[1..], b), a);
    }
  }

  lemma {:induction false} SelectShorter<T>(s: seq<T>, keep: set<T>)
    ensures |Select(s, keep)| <= |s|
  {
    if s != [] {
      SelectShorter(s[1..], keep);
    }
  }

  /** x's saved children, read off the saved list, are x's children in order. */
  lemma SavedKids(f: Forest<MoonModule>, x: MoonModule)
    requires Distinct(f)
    ensures Select(Saved(f), Elems(KidsOf(f, x))) == Select(KidsOf(f, x), Savable(f))
    ensures |Select(Saved(f), Elems(KidsOf(f, x)))| <= |KidsOf(f, x)|
  {
    SelectSwap(Pre(f), Savable(f), Elems(KidsOf(f, x)));
    SelectKids(f, x);
    SelectShorter(KidsOf(f, x), Savable(f));
  }

  lemma SavedNodes(f: Forest<MoonModule>)
    ensures Elems(Saved(f)) == Savable(f)
  {
    PreNodes(f);
    ElemsSelect(Pre(f), Savable(f));
  }

  // ---- Head modules ----

  /** Modules added at boot are missing from every saved list exactly when all of them are state
      stores. */
  lemma HeadsAreNeverSaved(f: Forest<MoonModule>, heads: set<MoonModule>)
    requires heads <= Nodes(f)
    ensures (forall h :: h in heads ==> h !in Saved(f)) <==> (forall h :: h in heads ==> h.typ == STORE_TYPE)
  {
    SavedNodes(f);
    assert forall h :: h in Saved(f) <==> h in Elems(Saved(f));
  }

  /** The records of freshly added top-level modules. */
  function HeadRecords(heads: seq<(string, string)>): seq<Record> {
    if heads == [] then []
    else
      var last := heads[|heads| - 1];
      HeadRecords(heads[..|heads| - 1]) + if last.0 == STORE_TYPE then [] else [Record(last.0, last.1, "")]
  }

  lemma SavedAppend(f: Forest<MoonModule>, m: MoonModule)
    requires Distinct(f) && m !in Nodes(f) && Distinct(Leaf(m)) && Nodes(Leaf(m)) == {m}
    ensures Saved(Append(f, Leaf(m))) == Saved(f) + if m.typ == STORE_TYPE then [] else [m]
  {
    var g := Append(f, Leaf(m));
    AppendNodes(f, Leaf(m));
    AppendOrder(f, Leaf(m));
    assert Pre(Leaf(m)) == [m];
    SelectConcat(Pre(f), [m], Savable(g));
    PreNodes(f);
    SelectSame(Pre(f), Savable(g), Savable(f));
    if m.typ != STORE_TYPE {
      SelectAll([m], Savable(g));
    } else {
      SelectNone([m], Savable(g));
    }
  }

  /** A new top-level module adds its record at the end, unless it is a state store. */
  lemma RecordsAppend(f: Forest<MoonModule>, m: MoonModule)
    requires Distinct(f) && m !in Nodes(f)
    ensures Records(Append(f, Leaf(m))) == Records(f) + if m.typ == STORE_TYPE then [] else [Record(m.typ, m.id, "")]
  {
    hide Select, Saved;
    var g := Append(f, Leaf(m));
    assert Distinct(Leaf(m)) && Nodes(Leaf(m)) == {m};
    AppendLinks(f, Leaf(m), m);
    SavedAppend(f, m);
    OldRecords(f, m);
  }

  lemma OldRecords(f: Forest<MoonModule>, m: MoonModule)
    requires Distinct(f) && m !in Nodes(f) && Distinct(Leaf(m)) && Nodes(Leaf(m)) == {m}
    ensures RecordList(Append(f, Leaf(m)), Saved(f)) == Records(f)
  {
    SavedNodes(f);
    forall x | x in Saved(f) ensures RecordOf(Append(f, Leaf(m)), x) == RecordOf(f, x) {
      assert x in Elems(Saved(f));
      AppendLinks(f, Leaf(m), x);
    }
  }

  /** Adding modules at boot: each but the state stores lands in the next saved list. */
  method AddHeads(manager: ModuleManager, heads: seq<(string, string)>)
    requires manager.Valid()
    modifies manager`modules, manager`forest
    ensures manager.Valid() && Records(manager.forest) == Records(old(manager.forest)) + HeadRecords(heads)
  {
    hide Records;
    for i := 0 to |heads|
      invariant manager.Valid() && Records(manager.forest) == Records(old(manager.forest)) + HeadRecords(heads[..i])
    {
      ghost var f := manager.forest;
      var m := manager.Add(heads[i].0, heads[i].1);
      NotYetOwned(f, m);
      RecordsAppend(f, m);
      assert heads[..i + 1][..i] == heads[..i];
    }
    assert heads[..|heads|] == heads;
  }

  lemma NotYetOwned(f: Forest<MoonModule>, m: MoonModule)
    requires Distinct(Append(f, Leaf(m)))
    ensures Distinct(f) && m !in Nodes(f)
    decreases f
  {
    if f.Grow? {
      AppendNodes(f.rest, Leaf(m));
      NotYetOwned(f.rest, m);
    }
  }

  /** The modules the program adds before it loads the saved list. */
  const MAIN_HEADS: seq<(string, string)> :=
    [("system", "system-0"), ("wifi-sta", "wifi-sta-0"), ("http", "http-0"), ("ws", "ws-0"), (STORE_TYPE, "state-store-0")]

  /** Booting and saving: the list holds four of the five head modules. */
  method BootAndSave(manager: ModuleManager) returns (list: seq<Record>)
    requires manager.Valid() && manager.forest == Empty
    modifies manager`modules, manager`forest
    ensures list == [Record("system", "system-0", ""), Record("wifi-sta", "wifi-sta-0", ""),
                     Record("http", "http-0", ""), Record("ws", "ws-0", "")]
  {
    assert Records(Empty) == [];
    AddHeads(manager, MAIN_HEADS);
    list := Snapshot(manager);
    MainHeadRecords();
  }

  lemma MainHeadRecords()
    ensures HeadRecords(MAIN_HEADS) == [Record("system", "system-0", ""), Record("wifi-sta", "wifi-sta-0", ""),
                                        Record("http", "http-0", ""), Record("ws", "ws-0", "")]
  {
    var h := MAIN_HEADS;
    assert h[..4][..3] == h[..3] && h[..3][..2] == h[..2] && h[..2][..1] == h[..1] && h[..1][..0] == [];
    assert HeadRecords(h[..1]) == [Record("system", "system-0", "")];
    assert HeadRecords(h[..2]) == HeadRecords(h[..1]) + [Record("wifi-sta", "wifi-sta-0", "")];
    assert HeadRecords(h[..3]) == HeadRecords(h[..2]) + [Record("http", "http-0", "")];
    assert HeadRecords(h[..4]) == HeadRecords(h[..3]) + [Record("ws", "ws-0", "")];
    assert h[4].0 == STORE_TYPE;
  }
}
