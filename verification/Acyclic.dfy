/** When a reparent keeps the module tree a tree. The manager itself does not test this.  */
module Acyclic {
  import opened Forests
  import opened ForestOps

  /** g carries the parent links of f after x has been hung under p. */
  ghost predicate Rehung<T(!new)>(f: Forest<T>, x: T, p: T, g: Forest<T>) {
    && Distinct(g) && Nodes(g) == Nodes(f)
    && ParentOf(g, x) == Some(p)
    && forall y :: y in Nodes(f) && y != x ==> ParentOf(g, y) == ParentOf(f, y)
  }

  lemma ChildOfBelow<T(!new)>(g: Forest<T>, x: T, a: T, b: T)
    requires Distinct(g) && (a == x || a in Nodes(SubOf(g, x))) && ParentOf(g, b) == Some(a)
    ensures b in Nodes(SubOf(g, x))
  {
    ParentInside(g, b);
    ParentChildInverse(g, a, b);
    RootIn(SubOf(g, a), b);
    if a != x {
      SubOfSubOf(g, x, a);
      SubOfNodes(SubOf(g, x), a);
    }
  }

  /** Whatever hangs below x in f still hangs below x in g. */
  lemma {:induction false} StillBelow<T(!new)>(f: Forest<T>, g: Forest<T>, x: T, a: T, h: Forest<T>)
    requires Distinct(g) && Distinct(h) && (a == x || a in Nodes(SubOf(g, x)))
    requires forall y :: y in Nodes(h) ==> ParentOf(g, y) == if y in Roots(h) then Some(a) else ParentOf(h, y)
    ensures Nodes(h) <= Nodes(SubOf(g, x))
  {
    if h.Grow? {
      ChildOfBelow(g, x, a, h.node);
      RootsInNodes(h.kids);
      RootsInNodes(h.rest);
      forall y | y in Nodes(h.kids)
        ensures ParentOf(g, y) == if y in Roots(h.kids) then Some(h.node) else ParentOf(h.kids, y)
      {
        RootIn(h.rest, y);
      }
      StillBelow(f, g, x, h.node, h.kids);
      forall y | y in Nodes(h.rest)
        ensures ParentOf(g, y) == if y in Roots(h.rest) then Some(a) else ParentOf(h.rest, y)
      {
        RootIn(h.kids, y);
      }
      StillBelow(f, g, x, a, h.rest);
    }
  }

  /** Hanging x under p leaves a tree if and only if p is outside x's own subtree. */
  lemma ReparentStaysATree<T(!new)>(f: Forest<T>, x: T, p: T)
    requires Distinct(f) && x in Nodes(f) && p in Nodes(f)
    ensures (exists g: Forest<T> :: Rehung(f, x, p, g)) <==> p !in Nodes(TreeOf(f, x))
  {
    assert Nodes(TreeOf(f, x)) == {x} + Nodes(SubOf(f, x));
    if p !in Nodes(TreeOf(f, x)) {
      var g := Move(f, x, p);
      MoveNodes(f, x, p);
      forall y | y in Nodes(f) ensures ParentOf(g, y) == if y == x then Some(p) else ParentOf(f, y) {
        if ParentOf(f, x) != Some(p) {
          MoveLinks(f, x, p, y);
        }
      }
      assert Rehung(f, x, p, g);
    } else if g: Forest<T> :| Rehung(f, x, p, g) {
      ParentInside(g, x);
      SubOfNodes(f, x);
      forall y | y in Nodes(SubOf(f, x))
        ensures ParentOf(g, y) == if y in KidsOf(f, x) then Some(x) else ParentOf(SubOf(f, x), y)
      {
        BelowParent(f, x, y);
        assert y != x;
      }
      StillBelow(f, g, x, x, SubOf(f, x));
      ChildOfBelow(g, x, p, x);
      SubOfNodes(g, x);
      assert false;
    }
  }
}
