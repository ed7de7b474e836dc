/** Owner slots: sequences of module references in which taken entries are null. */
module Slots {
  import opened Forests
  import opened ForestOps

  /** Slots after every member of `taken` has been moved out. */
  ghost function Blank<T>(s: seq<T>, taken: set<T>): (r: seq<Option<T>>)
    ensures |r| == |s|
    ensures forall i :: 0 <= i < |s| ==> r[i] == if s[i] in taken then None else Some(s[i])
  {
    seq(|s|, i requires 0 <= i < |s| => if s[i] in taken then None else Some(s[i]))
  }

  /** The slots that are still filled. */
  function Filled<T>(s: seq<Option<T>>): seq<T> {
    if s == [] then [] else (if s[0].Some? then [s[0].value] else []) + Filled(s[1..])
  }

  /** Emptying one more slot. */
  lemma BlankOne<T>(s: seq<T>, taken: set<T>, i: nat)
    requires NoDup(s) && i < |s|
    ensures Blank(s, taken)[i := None] == Blank(s, taken + {s[i]})
  {
    var a, b := Blank(s, taken)[i := None], Blank(s, taken + {s[i]});
    forall j | 0 <= j < |s| ensures a[j] == b[j] {
      assert j < i ==> s[j] != s[i];
      assert i < j ==> s[i] != s[j];
    }
  }

  lemma {:induction false} FilledBlank<T>(s: seq<T>, taken: set<T>)
    ensures Filled(Blank(s, taken)) == Select(s, Elems(s) - taken)
  {
    FilledBlankIn(s, taken, Elems(s) - taken);
  }

  lemma {:induction false} FilledBlankIn<T>(s: seq<T>, taken: set<T>, keep: set<T>)
    requires Elems(s) - taken <= keep && taken !! keep
    ensures Filled(Blank(s, taken)) == Select(s, keep)
  {
    if s != [] {
      assert s == [s[0]] + s[1..];
      assert s[0] in Elems(s);
      assert Blank(s, taken)[1..] == Blank(s[1..], taken);
      FilledBlankIn(s[1..], taken, keep);
    }
  }

  /** Cutting a subtree's slots out of the depth-first order leaves the pruned forest's order. */
  lemma CutSubtree<T>(f: Forest<T>, x: T)
    requires Distinct(f) && x in Nodes(f)
    ensures Filled(Blank(Pre(f), Nodes(TreeOf(f, x)))) == Pre(Prune(f, x))
  {
    var before, after := PruneOrder(f, x);
    PreNodes(TreeOf(f, x));
    PreNodes(Prune(f, x));
    PruneNodes(f, x);
    CutBlock(before, Pre(TreeOf(f, x)), after);
  }

  lemma CutBlock<T>(before: seq<T>, block: seq<T>, after: seq<T>)
    requires Elems(before + after) !! Elems(block)
    ensures Filled(Blank(before + block + after, Elems(block))) == before + after
  {
    var s, dead, keep := before + block + after, Elems(block), Elems(before + after);
    assert Elems(before) <= keep && Elems(after) <= keep && Elems(s) == keep + dead by {
      ElemsConcat(before, after);
      ElemsConcat(before + block, after);
      ElemsConcat(before, block);
    }
    FilledBlankIn(s, dead, keep);
    assert Select(before, keep) == before by { SelectAll(before, keep); }
    assert Select(after, keep) == after by { SelectAll(after, keep); }
    assert Select(block, keep) == [] by { SelectNone(block, keep); }
    assert before + [] == before;
    SelectThree(before, block, after, keep);
  }

  lemma SelectThree<T>(a: seq<T>, b: seq<T>, c: seq<T>, keep: set<T>)
    ensures Select(a + b + c, keep) == Select(a, keep) + Select(b, keep) + Select(c, keep)
  {
    SelectConcat(a + b, c, keep);
    SelectConcat(a, b, keep);
  }
}
