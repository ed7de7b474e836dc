/** The structural edits of the module tree, as functions on forests, and the laws
    that tie each edit to parent links, child lists and depth-first order.  */
module ForestOps {
  import opened Forests

  /** Drop x together with its subtree. */
  ghost function Prune<T>(f: Forest<T>, x: T): Forest<T> {
    match f
    case Empty => Empty
    case Grow(n, k, r) => if n == x then r else Grow(n, Prune(k, x), Prune(r, x))
  }

  /** Hang t as the last children of p. */
  ghost function Graft<T>(f: Forest<T>, p: T, t: Forest<T>): Forest<T> {
    match f
    case Empty => Empty
    case Grow(n, k, r) =>
      if n == p then Grow(n, Append(k, t), r) else Grow(n, Graft(k, p, t), Graft(r, p, t))
  }

  /** Make a nested x a root, placed right after the tree it came from; a root stays put. */
  ghost function Promote<T>(f: Forest<T>, x: T): Forest<T> {
    match f
    case Empty => Empty
    case Grow(n, k, r) =>
      if x in Nodes(k) then Grow(n, Prune(k, x), Grow(x, SubOf(k, x), r)) else Grow(n, k, Promote(r, x))
  }

  /** Replace the children forest of p. */
  ghost function WithKids<T>(f: Forest<T>, p: T, g: Forest<T>): Forest<T> {
    match f
    case Empty => Empty
    case Grow(n, k, r) => if n == p then Grow(n, g, r) else Grow(n, WithKids(k, p, g), WithKids(r, p, g))
  }

  /** Move x, with its subtree, to the end of p's children; a no-op when p is x's parent already. */
  ghost function Move<T>(f: Forest<T>, x: T, p: T): Forest<T> {
    if ParentOf(f, x) == Some(p) then f else Graft(Prune(f, x), p, TreeOf(f, x))
  }

  // ---- Append ----

  lemma {:induction false} AppendNodes<T>(f: Forest<T>, g: Forest<T>)
    ensures Nodes(Append(f, g)) == Nodes(f) + Nodes(g)
    ensures Distinct(f) && Distinct(g) && Nodes(f) !! Nodes(g) ==> Distinct(Append(f, g))
  {
    if f.Grow? {
      AppendNodes(f.rest, g);
    }
  }

  lemma {:induction false} AppendOrder<T>(f: Forest<T>, g: Forest<T>)
    ensures Roots(Append(f, g)) == Roots(f) + Roots(g)
    ensures Pre(Append(f, g)) == Pre(f) + Pre(g)
  {
    if f.Grow? {
      AppendOrder(f.rest, g);
      Assoc([f.node], Roots(f.rest), Roots(g));
      Assoc([f.node] + Pre(f.kids), Pre(f.rest), Pre(g));
    }
  }

  lemma {:induction false} AppendLinks<T>(f: Forest<T>, g: Forest<T>, y: T)
    requires Distinct(f) && Distinct(g) && Nodes(f) !! Nodes(g)
    ensures SubOf(Append(f, g), y) == if y in Nodes(f) then SubOf(f, y) else SubOf(g, y)
    ensures ParentOf(Append(f, g), y) == if y in Nodes(f) then ParentOf(f, y) else ParentOf(g, y)
  {
    if f.Grow? {
      AppendLinks(f.rest, g, y);
      AppendNodes(f.rest, g);
      RootsInNodes(f.kids);
      ParentInside(f.rest, y);
      ParentInside(g, y);
    } else {
      ParentInside(f, y);
    }
  }

  // ---- Prune ----

  lemma {:induction false} PruneAbsent<T>(f: Forest<T>, x: T)
    requires x !in Nodes(f)
    ensures Prune(f, x) == f
  {
    if f.Grow? {
      PruneAbsent(f.kids, x);
      PruneAbsent(f.rest, x);
    }
  }

  lemma {:induction false} WithoutAbsent<T>(s: seq<T>, x: T)
    requires x !in s
    ensures Without(s, x) == s
  {
    if s != [] {
      WithoutAbsent(s[1..], x);
    }
  }

  lemma {:induction false} WithoutMember<T>(s: seq<T>, x: T, y: T)
    ensures y in Without(s, x) <==> y in s && y != x
  {
    if s != [] {
      WithoutMember(s[1..], x, y);
      assert s == [s[0]] + s[1..];
    }
  }

  /** Pruning removes exactly the subtree. */
  lemma {:induction false} PruneNodes<T>(f: Forest<T>, x: T)
    requires Distinct(f)
    ensures Nodes(Prune(f, x)) == if x in Nodes(f) then Nodes(f) - Nodes(TreeOf(f, x)) else Nodes(f)
    ensures Distinct(Prune(f, x))
    ensures Roots(Prune(f, x)) == Without(Roots(f), x)
  {
    PruneNodeSet(f, x);
    PruneRoots(f, x);
  }

  lemma {:induction false} PruneRoots<T>(f: Forest<T>, x: T)
    requires Distinct(f)
    ensures Roots(Prune(f, x)) == Without(Roots(f), x)
  {
    if f.Grow? {
      RootsInNodes(f.rest);
      assert Roots(f)[1..] == Roots(f.rest);
      if f.node == x {
        WithoutAbsent(Roots(f.rest), x);
      } else {
        PruneRoots(f.rest, x);
      }
    }
  }

  lemma {:induction false} PruneNodeSet<T>(f: Forest<T>, x: T)
    requires Distinct(f)
    ensures Nodes(Prune(f, x)) == if x in Nodes(f) then Nodes(f) - Nodes(TreeOf(f, x)) else Nodes(f)
    ensures Distinct(Prune(f, x))
  {
    if f.Grow? {
      assert Nodes(TreeOf(f, x)) == {x} + Nodes(SubOf(f, x));
      SubOfNodes(f, x);
      if f.node != x {
        PruneNodeSet(f.kids, x);
        PruneNodeSet(f.rest, x);
        SubOfNodes(f.kids, x);
        SubOfNodes(f.rest, x);
        assert Nodes(TreeOf(f.kids, x)) == {x} + Nodes(SubOf(f.kids, x));
        assert Nodes(TreeOf(f.rest, x)) == {x} + Nodes(SubOf(f.rest, x));
      }
    }
  }

  /** Every survivor keeps its parent, and loses at most x from its children. */
  lemma {:induction false} PruneLinks<T>(f: Forest<T>, x: T, y: T)
    requires Distinct(f) && y in Nodes(Prune(f, x))
    ensures SubOf(Prune(f, x), y) == Prune(SubOf(f, y), x)
    ensures KidsOf(Prune(f, x), y) == Without(KidsOf(f, y), x)
    ensures ParentOf(Prune(f, x), y) == ParentOf(f, y)
  {
    PruneNodes(f, x);
    SubOfNodes(f, y);
    PruneNodes(SubOf(f, y), x);
    RootsInNodes(f.kids);
    if f.node == x {
      SubOfNodes(f.rest, y);
      PruneAbsent(SubOf(f.rest, y), x);
    } else {
      PruneNodes(f.kids, x);
      PruneNodes(f.rest, x);
      RootsInNodes(Prune(f.kids, x));
      if y in Nodes(Prune(f.kids, x)) {
        PruneLinks(f.kids, x, y);
        WithoutMember(Roots(f.kids), x, y);
      } else if y in Nodes(Prune(f.rest, x)) {
        PruneLinks(f.rest, x, y);
      }
    }
  }

  /** A subtree is one contiguous block of the depth-first order, and pruning cuts out that
      block and nothing else, so the survivors keep their relative order. */
  lemma {:induction false} PruneOrder<T>(f: Forest<T>, x: T) returns (before: seq<T>, after: seq<T>)
    requires Distinct(f) && x in Nodes(f)
    ensures Pre(f) == before + Pre(TreeOf(f, x)) + after
    ensures Pre(Prune(f, x)) == before + after
  {
    if x == f.node {
      before, after := [], Pre(f.rest);
    } else if x in Nodes(f.kids) {
      var b, a := PruneOrder(f.kids, x);
      PruneAbsent(f.rest, x);
      before, after := [f.node] + b, a + Pre(f.rest);
      Regroup([f.node], b, Pre(TreeOf(f.kids, x)), a, Pre(f.rest));
    } else {
      var b, a := PruneOrder(f.rest, x);
      PruneAbsent(f.kids, x);
      before, after := [f.node] + Pre(f.kids) + b, a;
      Regroup([f.node] + Pre(f.kids), b, Pre(TreeOf(f.rest, x)), a, []);
    }
  }

  lemma Regroup<T>(a: seq<T>, b: seq<T>, c: seq<T>, d: seq<T>, e: seq<T>)
    ensures a + (b + c + d) + e == (a + b) + c + (d + e)
    ensures a + (b + d) + e == (a + b) + (d + e)
    ensures e == [] ==> a + (b + c + d) == (a + b) + c + d && a + (b + d) == (a + b) + d
  {
  }

  // ---- Graft ----

  lemma {:induction false} GraftNodes<T>(f: Forest<T>, p: T, t: Forest<T>)
    requires Distinct(f) && Distinct(t) && Nodes(f) !! Nodes(t)
    ensures Nodes(Graft(f, p, t)) == if p in Nodes(f) then Nodes(f) + Nodes(t) else Nodes(f)
    ensures Distinct(Graft(f, p, t))
    ensures Roots(Graft(f, p, t)) == Roots(f)
    ensures p !in Nodes(f) ==> Graft(f, p, t) == f
  {
    if f.Grow? {
      AppendNodes(f.kids, t);
      GraftNodes(f.kids, p, t);
      GraftNodes(f.rest, p, t);
    }
  }

  /** After a graft only p's child list changes, at its end. */
  lemma {:induction false} GraftKids<T>(f: Forest<T>, p: T, t: Forest<T>, y: T)
    requires Distinct(f) && Distinct(t) && Nodes(f) !! Nodes(t) && p in Nodes(f)
    ensures KidsOf(Graft(f, p, t), y) ==
            if y in Nodes(t) then KidsOf(t, y)
            else if y == p then KidsOf(f, p) + Roots(t)
            else KidsOf(f, y)
  {
    AppendNodes(f.kids, t);
    AppendOrder(f.kids, t);
    AppendLinks(f.kids, t, y);
    GraftNodes(f.kids, p, t);
    GraftNodes(f.rest, p, t);
    if p in Nodes(f.kids) {
      GraftKids(f.kids, p, t, y);
    } else if p in Nodes(f.rest) {
      GraftKids(f.rest, p, t, y);
    }
  }

  /** After a graft only the grafted roots have a new parent. */
  lemma {:induction false} GraftParents<T>(f: Forest<T>, p: T, t: Forest<T>, y: T)
    requires Distinct(f) && Distinct(t) && Nodes(f) !! Nodes(t) && p in Nodes(f)
    ensures ParentOf(Graft(f, p, t), y) ==
            if y in Roots(t) then Some(p)
            else if y in Nodes(t) then ParentOf(t, y)
            else ParentOf(f, y)
  {
    RootIn(t, y);
    RootIn(f.kids, y);
    if p == f.node {
      AppendNodes(f.kids, t);
      AppendOrder(f.kids, t);
      AppendLinks(f.kids, t, y);
    } else if p in Nodes(f.kids) {
      GraftNodes(f.kids, p, t);
      GraftNodes(f.rest, p, t);
      ParentInside(f.kids, y);
      GraftParents(f.kids, p, t, y);
    } else {
      GraftNodes(f.kids, p, t);
      GraftNodes(f.rest, p, t);
      GraftParents(f.rest, p, t, y);
    }
  }

  // ---- Promote ----

  lemma {:induction false} PromoteNodes<T>(f: Forest<T>, x: T)
    requires Distinct(f)
    ensures Nodes(Promote(f, x)) == Nodes(f)
    ensures Distinct(Promote(f, x))
    ensures x !in Nodes(f) || x in Roots(f) ==> Promote(f, x) == f
    ensures x in Nodes(f) ==> x in Roots(Promote(f, x))
  {
    if f.Grow? {
      PruneNodes(f.kids, x);
      SubOfNodes(f.kids, x);
      PromoteNodes(f.rest, x);
      RootsInNodes(f.rest);
    }
  }

  /** Promotion detaches x from its old parent and changes no other link. */
  lemma {:induction false} PromoteLinks<T>(f: Forest<T>, x: T, y: T)
    requires Distinct(f) && x in Nodes(f)
    ensures KidsOf(Promote(f, x), y) == Without(KidsOf(f, y), x)
    ensures ParentOf(Promote(f, x), y) == if y == x then None else ParentOf(f, y)
  {
    if x in Nodes(f.kids) {
      PromoteNestedKids(f, x, y);
      PromoteNestedParent(f, x, y);
    } else {
      WithoutAbsentFrom(f, x, y);
      PromoteNodes(f.rest, x);
      RootsInNodes(f.kids);
      if x in Nodes(f.rest) {
        PromoteLinks(f.rest, x, y);
      } else {
        ParentlessAreRoots(f, x);
        PromoteNodes(f, x);
      }
    }
  }

  lemma WithoutAbsentFrom<T>(f: Forest<T>, x: T, y: T)
    requires Distinct(f) && f.Grow? && x !in Nodes(f.kids)
    ensures Without(Roots(f.kids), x) == Roots(f.kids)
    ensures y in Nodes(f.kids) ==> Without(KidsOf(f, y), x) == KidsOf(f, y)
    ensures x == f.node ==> Without(KidsOf(f, y), x) == KidsOf(f, y)
  {
    RootsInNodes(f.kids);
    WithoutAbsent(Roots(f.kids), x);
    SubOfNodes(f.kids, y);
    SubOfNodes(f.rest, y);
    RootsInNodes(SubOf(f, y));
    if y in Nodes(f.kids) || x == f.node {
      WithoutAbsent(KidsOf(f, y), x);
    }
  }

  lemma SubOfPromoted<T>(n: T, k: Forest<T>, x: T, s: Forest<T>, r: Forest<T>, y: T)
    ensures SubOf(Grow(n, k, Grow(x, s, r)), y) ==
            if y == n then k
            else if y in Nodes(k) then SubOf(k, y)
            else if y == x then s
            else if y in Nodes(s) then SubOf(s, y)
            else SubOf(r, y)
  {
  }

  lemma PromoteNestedKids<T>(f: Forest<T>, x: T, y: T)
    requires Distinct(f) && f.Grow? && x in Nodes(f.kids)
    ensures KidsOf(Promote(f, x), y) == Without(KidsOf(f, y), x)
  {
    var k, s := Prune(f.kids, x), SubOf(f.kids, x);
    SubOfPromoted(f.node, k, x, s, f.rest, y);
    PruneNodes(f.kids, x);
    SubOfNodes(f.kids, x);
    assert Nodes(TreeOf(f.kids, x)) == {x} + Nodes(s);
    if y in Nodes(k) {
      PruneLinks(f.kids, x, y);
    } else if y in Nodes(s) {
      SubOfSubOf(f.kids, x, y);
      SubOfNodes(s, y);
      RootsInNodes(SubOf(s, y));
      WithoutAbsent(KidsOf(f, y), x);
    } else if y == x {
      RootsInNodes(s);
      WithoutAbsent(KidsOf(f, y), x);
    } else if y != f.node {
      SubOfNodes(f.rest, y);
      RootsInNodes(SubOf(f.rest, y));
      WithoutAbsent(KidsOf(f, y), x);
    }
  }

  lemma PromoteNestedParent<T>(f: Forest<T>, x: T, y: T)
    requires Distinct(f) && f.Grow? && x in Nodes(f.kids)
    ensures ParentOf(Promote(f, x), y) == if y == x then None else ParentOf(f, y)
  {
    var k, s := Prune(f.kids, x), SubOf(f.kids, x);
    PruneNodes(f.kids, x);
    SubOfNodes(f.kids, x);
    RootsInNodes(k);
    RootsInNodes(s);
    RootsInNodes(f.kids);
    WithoutMember(Roots(f.kids), x, y);
    ParentInside(f.rest, y);
    assert Promote(f, x) == Grow(f.node, k, Grow(x, s, f.rest));
    if y in Nodes(k) {
      PruneLinks(f.kids, x, y);
    } else if y in Nodes(s) {
      BelowParent(f.kids, x, y);
    }
  }

  /** A node below x has the same parent seen from x's subtree; a child of x has parent x. */
  lemma {:induction false} BelowParent<T>(f: Forest<T>, x: T, y: T)
    requires Distinct(f) && y in Nodes(SubOf(f, x))
    ensures ParentOf(f, y) == if y in KidsOf(f, x) then Some(x) else ParentOf(SubOf(f, x), y)
    ensures y !in Roots(f)
  {
    SubOfNodes(f, x);
    RootsInNodes(f.kids);
    RootsInNodes(f.rest);
    if x == f.node {
    } else {
      SubOfNodes(f.kids, x);
      SubOfNodes(f.rest, x);
      if x in Nodes(f.kids) {
        BelowParent(f.kids, x, y);
      } else {
        BelowParent(f.rest, x, y);
      }
    }
  }

  // ---- Reordering one child list ----

  /** The trees of h, rearranged so that its roots come in the given order. */
  ghost function Arrange<T>(h: Forest<T>, order: seq<T>): Forest<T> {
    if order == [] then Empty else Grow(order[0], SubOf(h, order[0]), Arrange(h, order[1..]))
  }

  /** f with the children of p put in the given order. */
  ghost function Reorder<T>(f: Forest<T>, p: T, order: seq<T>): Forest<T> {
    WithKids(f, p, Arrange(SubOf(f, p), order))
  }

  lemma {:induction false} ArrangePruned<T>(h: Forest<T>, x: T, order: seq<T>)
    requires Distinct(h) && x in Roots(h)
    requires Elems(order) <= Elems(Roots(h)) && x !in order
    ensures Arrange(Prune(h, x), order) == Arrange(h, order)
  {
    if order != [] {
      var y := order[0];
      assert y in Elems(order) && y in Roots(h);
      RootsInNodes(h);
      PruneNodes(h, x);
      WithoutMember(Roots(h), x, y);
      RootsInNodes(Prune(h, x));
      PruneLinks(h, x, y);
      RootNotBelow(h, x, y);
      PruneAbsent(SubOf(h, y), x);
      ArrangePruned(h, x, order[1..]);
    }
  }

  lemma {:induction false} RootNotBelow<T>(h: Forest<T>, x: T, y: T)
    requires Distinct(h) && x in Roots(h)
    ensures x !in Nodes(SubOf(h, y))
  {
    if y != h.node {
      SubOfNodes(h.kids, y);
      SubOfNodes(h.rest, y);
      RootsInNodes(h.rest);
      if x != h.node {
        RootNotBelow(h.rest, x, y);
      }
    } else {
      RootsInNodes(h.rest);
    }
  }

  lemma OrderTail<T>(order: seq<T>, roots: seq<T>)
    requires order != [] && NoDup(order) && Elems(order) == Elems(roots)
    ensures order[0] in roots && order[0] !in order[1..] && NoDup(order[1..])
    ensures Elems(order[1..]) == Elems(Without(roots, order[0]))
    ensures Elems(order[1..]) <= Elems(roots)
  {
    var x, t := order[0], order[1..];
    assert order == [x] + t;
    ElemsConcat([x], t);
    assert x in Elems(order);
    assert x !in t;
    assert Elems(order) == {x} + Elems(t);
    ElemsWithout(roots, x);
    forall i, j | 0 <= i < j < |t| ensures t[i] != t[j] { assert order[i + 1] != order[j + 1]; }
  }

  /** Rearranging the roots keeps the nodes and every link. */
  lemma {:induction false} ArrangeFacts<T>(h: Forest<T>, order: seq<T>)
    requires Distinct(h) && NoDup(order) && Elems(order) == Elems(Roots(h))
    ensures Nodes(Arrange(h, order)) == Nodes(h) && Distinct(Arrange(h, order))
    ensures Roots(Arrange(h, order)) == order
    decreases |order|
  {
    RootsInNodes(h);
    if order == [] {
      EmptyElems(Roots(h));
    } else {
      var x := order[0];
      OrderTail(order, Roots(h));
      PruneNodes(h, x);
      SubOfNodes(h, x);
      ArrangePruned(h, x, order[1..]);
      ArrangeFacts(Prune(h, x), order[1..]);
      assert Nodes(TreeOf(h, x)) == {x} + Nodes(SubOf(h, x));
      assert order == [x] + order[1..];
    }
  }

  lemma EmptyElems<T>(s: seq<T>)
    ensures Elems(s) == {} ==> s == []
  {
    if s != [] {
      assert s[0] in Elems(s);
    }
  }

  lemma {:induction false} ElemsWithout<T>(s: seq<T>, x: T)
    ensures Elems(Without(s, x)) == Elems(s) - {x}
  {
    if s != [] {
      ElemsWithout(s[1..], x);
      ElemsConcat([s[0]], s[1..]);
      ElemsConcat([s[0]], Without(s[1..], x));
      assert s == [s[0]] + s[1..];
    }
  }

  lemma {:induction false} ArrangeLinks<T>(h: Forest<T>, order: seq<T>, y: T)
    requires Distinct(h) && NoDup(order) && Elems(order) == Elems(Roots(h))
    ensures SubOf(Arrange(h, order), y) == SubOf(h, y)
    ensures ParentOf(Arrange(h, order), y) == ParentOf(h, y)
    decreases |order|
  {
    if order == [] {
      EmptyElems(Roots(h));
      RootsInNodes(h);
    } else {
      var x := order[0];
      OrderTail(order, Roots(h));
      PruneNodes(h, x);
      ArrangePruned(h, x, order[1..]);
      ArrangeFacts(Prune(h, x), order[1..]);
      ArrangeLinks(Prune(h, x), order[1..], y);
      RootFirst(h, x, y);
      SubOfNodes(h, x);
      RootsInNodes(SubOf(h, x));
      ParentInside(SubOf(h, x), y);
      ParentInside(Prune(h, x), y);
    }
  }

  /** A forest with one of its trees moved to the front has the same links. */
  lemma RootFirst<T>(h: Forest<T>, x: T, y: T)
    requires Distinct(h) && x in Roots(h)
    ensures y == x ==> ParentOf(h, y) == None
    ensures y in Nodes(SubOf(h, x)) ==>
              SubOf(h, y) == SubOf(SubOf(h, x), y) &&
              ParentOf(h, y) == if y in KidsOf(h, x) then Some(x) else ParentOf(SubOf(h, x), y)
    ensures y != x && y !in Nodes(SubOf(h, x)) ==>
              SubOf(h, y) == SubOf(Prune(h, x), y) && ParentOf(h, y) == ParentOf(Prune(h, x), y) && y !in KidsOf(h, x)
  {
    RootsInNodes(h);
    RootsInNodes(SubOf(h, x));
    SubOfNodes(h, x);
    if y == x {
      ParentlessAreRoots(h, x);
    } else if y in Nodes(SubOf(h, x)) {
      SubOfSubOf(h, x, y);
      BelowParent(h, x, y);
    } else {
      PruneNodes(h, x);
      assert Nodes(TreeOf(h, x)) == {x} + Nodes(SubOf(h, x));
      if y in Nodes(h) {
        PruneLinks(h, x, y);
        RootBelow(h, x, y);
      } else {
        SubOfNodes(h, y);
        SubOfNodes(Prune(h, x), y);
        ParentInside(h, y);
        ParentInside(Prune(h, x), y);
      }
    }
  }

  lemma RootBelow<T>(h: Forest<T>, x: T, y: T)
    requires Distinct(h) && x in Roots(h)
    ensures Prune(SubOf(h, y), x) == SubOf(h, y)
  {
    RootNotBelow(h, x, y);
    PruneAbsent(SubOf(h, y), x);
  }

  lemma {:induction false} WithKidsNodes<T>(f: Forest<T>, p: T, g: Forest<T>)
    requires Distinct(f) && Distinct(g) && Nodes(g) == Nodes(SubOf(f, p))
    ensures Nodes(WithKids(f, p, g)) == Nodes(f) && Distinct(WithKids(f, p, g))
    ensures Roots(WithKids(f, p, g)) == Roots(f)
    ensures p !in Nodes(f) ==> WithKids(f, p, g) == f
  {
    if f.Grow? && f.node != p {
      SubOfNodes(f.kids, p);
      SubOfNodes(f.rest, p);
      if p in Nodes(f.kids) {
        WithKidsNodes(f.kids, p, g);
        WithKidsAbsent(f.rest, p, g);
      } else {
        WithKidsAbsent(f.kids, p, g);
        WithKidsNodes(f.rest, p, g);
      }
    }
  }

  lemma {:induction false} WithKidsAbsent<T>(f: Forest<T>, p: T, g: Forest<T>)
    requires p !in Nodes(f)
    ensures WithKids(f, p, g) == f
  {
    if f.Grow? {
      WithKidsAbsent(f.kids, p, g);
      WithKidsAbsent(f.rest, p, g);
    }
  }

  /** Replacing p's children by the same nodes changes child lists only at p and inside. */
  lemma {:induction false} WithKidsKids<T>(f: Forest<T>, p: T, g: Forest<T>, y: T)
    requires Distinct(f) && Distinct(g) && Nodes(g) == Nodes(SubOf(f, p)) && p in Nodes(f)
    ensures KidsOf(WithKids(f, p, g), y) ==
            if y == p then Roots(g) else if y in Nodes(g) then KidsOf(g, y) else KidsOf(f, y)
  {
    SubOfNodes(f, p);
    if f.node != p {
      if p in Nodes(f.kids) {
        WithKidsNodes(f.kids, p, g);
        WithKidsAbsent(f.rest, p, g);
        WithKidsKids(f.kids, p, g, y);
        SubOfNodes(f.kids, p);
      } else {
        WithKidsAbsent(f.kids, p, g);
        WithKidsNodes(f.rest, p, g);
        WithKidsKids(f.rest, p, g, y);
        SubOfNodes(f.rest, p);
      }
    }
  }

  lemma {:induction false} WithKidsParent<T>(f: Forest<T>, p: T, g: Forest<T>, y: T)
    requires Distinct(f) && Distinct(g) && Nodes(g) == Nodes(SubOf(f, p)) && p in Nodes(f)
    ensures ParentOf(WithKids(f, p, g), y) ==
            if y in Roots(g) then Some(p) else if y in Nodes(g) then ParentOf(g, y) else ParentOf(f, y)
  {
    SubOfNodes(f, p);
    RootIn(g, y);
    RootIn(f.kids, y);
    if f.node == p {
    } else if p in Nodes(f.kids) {
      WithKidsNodes(f.kids, p, g);
      WithKidsAbsent(f.rest, p, g);
      WithKidsParent(f.kids, p, g, y);
      SubOfNodes(f.kids, p);
      if y in Nodes(g) {
        BelowParent(f.kids, p, y);
      }
    } else {
      WithKidsAbsent(f.kids, p, g);
      WithKidsNodes(f.rest, p, g);
      WithKidsParent(f.rest, p, g, y);
      SubOfNodes(f.rest, p);
    }
  }

  /** Reordering p's children changes p's child list to the given order and no other link. */
  lemma ReorderLinks<T>(f: Forest<T>, p: T, order: seq<T>, y: T)
    requires Distinct(f) && p in Nodes(f)
    requires NoDup(order) && Elems(order) == Elems(KidsOf(f, p))
    ensures Nodes(Reorder(f, p, order)) == Nodes(f) && Distinct(Reorder(f, p, order))
    ensures Roots(Reorder(f, p, order)) == Roots(f)
    ensures KidsOf(Reorder(f, p, order), y) == if y == p then order else KidsOf(f, y)
    ensures ParentOf(Reorder(f, p, order), y) == ParentOf(f, y)
  {
    var h := SubOf(f, p);
    SubOfNodes(f, p);
    ArrangeFacts(h, order);
    ArrangeLinks(h, order, y);
    var g := Arrange(h, order);
    WithKidsNodes(f, p, g);
    WithKidsKids(f, p, g, y);
    WithKidsParent(f, p, g, y);
    if y in Nodes(h) {
      SubOfSubOf(f, p, y);
      BelowParent(f, p, y);
      assert y in Elems(Roots(g)) <==> y in Elems(KidsOf(f, p));
    } else {
      RootsInNodes(g);
    }
  }

  // ---- The roots, read off the old depth-first order ----

  lemma {:induction false} SelectConcat<T>(a: seq<T>, b: seq<T>, keep: set<T>)
    ensures Select(a + b, keep) == Select(a, keep) + Select(b, keep)
  {
    if a == [] {
      assert a + b == b;
    } else {
      SelectConcat(a[1..], b, keep);
      assert (a + b)[1..] == a[1..] + b;
      Assoc(if a[0] in keep then [a[0]] else [], Select(a[1..], keep), Select(b, keep));
    }
  }

  lemma {:induction false} SelectNone<T>(s: seq<T>, keep: set<T>)
    requires Elems(s) !! keep
    ensures Select(s, keep) == []
  {
    if s != [] {
      assert s[0] in Elems(s);
      assert s == [s[0]] + s[1..];
      SelectNone(s[1..], keep);
    }
  }

  lemma {:induction false} SelectWithoutIn<T>(s: seq<T>, keep: set<T>, x: T)
    requires Elems(s) - {x} <= keep && x !in keep
    ensures Select(s, keep) == Without(s, x)
  {
    if s != [] {
      assert s == [s[0]] + s[1..];
      assert s[0] in Elems(s);
      SelectWithoutIn(s[1..], keep, x);
    }
  }

  /** Kept nodes that are all roots appear in the depth-first order as they do among the roots. */
  lemma {:induction false} SelectRoots<T>(f: Forest<T>, keep: set<T>)
    requires Distinct(f) && keep * Nodes(f) <= Elems(Roots(f))
    ensures Select(Pre(f), keep) == Select(Roots(f), keep)
  {
    if f.Grow? {
      RootsInNodes(f.rest);
      ElemsConcat([f.node], Roots(f.rest));
      PreNodes(f.kids);
      SelectConcat([f.node] + Pre(f.kids), Pre(f.rest), keep);
      SelectConcat([f.node], Pre(f.kids), keep);
      SelectConcat([f.node], Roots(f.rest), keep);
      SelectNone(Pre(f.kids), keep);
      SelectRoots(f.rest, keep);
    }
  }

  /** A node's children appear in the depth-first order as they do in its child list. */
  lemma {:induction false} SelectKids<T>(f: Forest<T>, p: T)
    requires Distinct(f)
    ensures Select(Pre(f), Elems(KidsOf(f, p))) == KidsOf(f, p)
  {
    var keep := Elems(KidsOf(f, p));
    RootsInNodes(SubOf(f, p));
    SubOfNodes(f, p);
    if f.Grow? {
      SelectConcat([f.node] + Pre(f.kids), Pre(f.rest), keep);
      SelectConcat([f.node], Pre(f.kids), keep);
      PreNodes(f.kids);
      PreNodes(f.rest);
      SubOfNodes(f.kids, p);
      SubOfNodes(f.rest, p);
      if p == f.node {
        SelectRoots(f.kids, keep);
        SelectAll(Roots(f.kids), keep);
        SelectNone(Pre(f.rest), keep);
      } else if p in Nodes(f.kids) {
        SelectKids(f.kids, p);
        SelectNone(Pre(f.rest), keep);
      } else {
        SelectKids(f.rest, p);
        SelectNone(Pre(f.kids), keep);
      }
    }
  }

  lemma {:induction false} SelectAll<T>(s: seq<T>, keep: set<T>)
    requires Elems(s) <= keep
    ensures Select(s, keep) == s
  {
    if s != [] {
      assert s[0] in Elems(s);
      assert s == [s[0]] + s[1..];
      SelectAll(s[1..], keep);
    }
  }

  lemma SelectPre<T>(f: Forest<T>, keep: set<T>)
    requires f.Grow?
    ensures Select(Pre(f), keep) ==
            (if f.node in keep then [f.node] else []) + Select(Pre(f.kids), keep) + Select(Pre(f.rest), keep)
    ensures Select(Pre(f.kids), keep) == [] ==>
            Select(Pre(f), keep) == (if f.node in keep then [f.node] else []) + Select(Pre(f.rest), keep)
  {
    SelectConcat([f.node] + Pre(f.kids), Pre(f.rest), keep);
    SelectConcat([f.node], Pre(f.kids), keep);
    NilMid(if f.node in keep then [f.node] else [], Select(Pre(f.rest), keep));
  }

  /** Promotion: the new root list is the old depth-first order restricted to the new roots. */
  lemma {:induction false} PromoteRoots<T>(f: Forest<T>, x: T)
    requires Distinct(f) && x in Nodes(f)
    ensures Select(Pre(f), Elems(Roots(f)) + {x}) == Roots(Promote(f, x))
  {
    if x in Nodes(f.kids) {
      PromoteNestedRoots(f, x);
    } else {
      if x in Nodes(f.rest) {
        PromoteRoots(f.rest, x);
      }
      PromoteRestRoots(f, x);
    }
  }

  lemma PromoteAbsent<T>(f: Forest<T>, x: T)
    requires Distinct(f) && x !in Nodes(f)
    ensures Promote(f, x) == f
  {
    PromoteNodes(f, x);
  }

  lemma PromoteRestRoots<T>(f: Forest<T>, x: T)
    requires Distinct(f) && x in Nodes(f) && x !in Nodes(f.kids)
    requires x in Nodes(f.rest) ==> Select(Pre(f.rest), Elems(Roots(f.rest)) + {x}) == Roots(Promote(f.rest, x))
    ensures Select(Pre(f), Elems(Roots(f)) + {x}) == Roots(Promote(f, x))
  {
    var roots := Elems(Roots(f.rest));
    var keep := {f.node} + roots + {x};
    assert Elems(Roots(f)) + {x} == keep by {
      ElemsConcat([f.node], Roots(f.rest));
    }
    RootsInNodes(f.rest);
    assert Select(Pre(f.kids), keep) == [] by {
      PreNodes(f.kids);
      SelectNone(Pre(f.kids), keep);
    }
    assert Select(Pre(f.rest), keep) == Roots(Promote(f.rest, x)) by {
      if x in Nodes(f.rest) {
        PreNodes(f.rest);
        SelectSame(Pre(f.rest), keep, roots + {x});
      } else {
        SelectRestRoots(f, keep);
        PromoteAbsent(f.rest, x);
      }
    }
    SelectPre(f, keep);
  }

  lemma KeptRoots<T>(n: T, x: T, roots: set<T>, k: set<T>, r: set<T>)
    requires n !in k && n !in r && k !! r && x in k && roots <= r
    ensures ({n} + roots + {x}) * k == {x}
    ensures ({n} + roots + {x}) * r <= roots
  {
  }

  lemma PromoteNestedRoots<T>(f: Forest<T>, x: T)
    requires Distinct(f) && f.Grow? && x in Nodes(f.kids)
    ensures Select(Pre(f), Elems(Roots(f)) + {x}) == Roots(Promote(f, x))
  {
    var roots := Elems(Roots(f.rest));
    var keep := {f.node} + roots + {x};
    assert keep == Elems(Roots(f)) + {x} by {
      ElemsConcat([f.node], Roots(f.rest));
    }
    RootsInNodes(f.rest);
    KeptRoots(f.node, x, roots, Nodes(f.kids), Nodes(f.rest));
    assert Select(Pre(f.kids), keep) == [x] by {
      PreNodes(f.kids);
      DistinctNoDup(f.kids);
      SelectSingle(Pre(f.kids), keep, x);
    }
    assert Select(Pre(f.rest), keep) == Roots(f.rest) by {
      SelectRestRoots(f, keep);
    }
    SelectPre(f, keep);
  }

  lemma SelectRestRoots<T>(f: Forest<T>, keep: set<T>)
    requires f.Grow? && Distinct(f)
    requires Elems(Roots(f.rest)) <= keep && keep * Nodes(f.rest) <= Elems(Roots(f.rest))
    ensures Select(Pre(f.rest), keep) == Roots(f.rest)
  {
    SelectRoots(f.rest, keep);
    SelectAll(Roots(f.rest), keep);
  }

  lemma {:induction false} SelectSame<T>(s: seq<T>, a: set<T>, b: set<T>)
    requires a * Elems(s) == b * Elems(s)
    ensures Select(s, a) == Select(s, b)
  {
    if s != [] {
      assert s == [s[0]] + s[1..];
      assert s[0] in Elems(s);
      assert s[0] in a <==> s[0] in a * Elems(s);
      assert a * Elems(s[1..]) == (a * Elems(s)) * Elems(s[1..]);
      assert b * Elems(s[1..]) == (b * Elems(s)) * Elems(s[1..]);
      SelectSame(s[1..], a, b);
    }
  }

  lemma {:induction false} SelectSingle<T>(s: seq<T>, keep: set<T>, x: T)
    requires NoDup(s) && keep * Elems(s) == {x}
    ensures Select(s, keep) == [x]
  {
    assert x in keep * Elems(s);
    assert s == [s[0]] + s[1..];
    assert s[0] in Elems(s);
    if s[0] == x {
      assert x !in s[1..];
      assert Elems(s) == {x} + Elems(s[1..]);
      SelectNone(s[1..], keep);
    } else {
      assert s[0] in keep <==> s[0] in keep * Elems(s);
      assert Elems(s) == {s[0]} + Elems(s[1..]);
      assert keep * Elems(s[1..]) == {x};
      SelectSingle(s[1..], keep, x);
    }
  }

  // ---- Moving a subtree under another parent ----

  lemma MoveNodes<T>(f: Forest<T>, x: T, p: T)
    requires Distinct(f) && x in Nodes(f) && p in Nodes(f) && p !in Nodes(TreeOf(f, x))
    ensures Nodes(Move(f, x, p)) == Nodes(f) && Distinct(Move(f, x, p))
    ensures Select(Pre(f), Elems(Roots(Move(f, x, p)))) == Roots(Move(f, x, p))
  {
    RootsInNodes(f);
    if ParentOf(f, x) == Some(p) {
      SelectRoots(f, Elems(Roots(f)));
      SelectAll(Roots(f), Elems(Roots(f)));
    } else {
      var t := TreeOf(f, x);
      PruneNodes(f, x);
      SubOfNodes(f, x);
      assert Nodes(t) == {x} + Nodes(SubOf(f, x));
      GraftNodes(Prune(f, x), p, t);
      ElemsWithout(Roots(f), x);
      var keep := Elems(Roots(f)) - {x};
      SelectRoots(f, keep);
      SelectWithoutIn(Roots(f), keep, x);
    }
  }

  /** After a move, x is the last child of p, and no other parent link or child order changes. */
  lemma MoveLinks<T>(f: Forest<T>, x: T, p: T, y: T)
    requires Distinct(f) && x in Nodes(f) && p in Nodes(f) && p !in Nodes(TreeOf(f, x)) && y in Nodes(f)
    requires ParentOf(f, x) != Some(p)
    ensures KidsOf(Move(f, x, p), y) == Without(KidsOf(f, y), x) + (if y == p then [x] else [])
    ensures ParentOf(Move(f, x, p), y) == if y == x then Some(p) else ParentOf(f, y)
  {
    var t := TreeOf(f, x);
    PruneNodes(f, x);
    SubOfNodes(f, x);
    assert Nodes(t) == {x} + Nodes(SubOf(f, x)) && Roots(t) == [x];
    GraftKids(Prune(f, x), p, t, y);
    GraftParents(Prune(f, x), p, t, y);
    if y in Nodes(t) {
      SubOfNodes(SubOf(f, x), y);
      RootsInNodes(SubOf(f, x));
      RootsInNodes(SubOf(SubOf(f, x), y));
      if y != x {
        SubOfSubOf(f, x, y);
        BelowParent(f, x, y);
      }
      WithoutAbsent(KidsOf(f, y), x);
    } else {
      PruneLinks(f, x, y);
    }
  }

  lemma PromoteOrder<T>(f: Forest<T>, x: T)
    requires Distinct(f) && x in Nodes(f)
    ensures Select(Pre(f), Elems(Roots(Promote(f, x)))) == Roots(Promote(f, x))
  {
    PromoteRoots(f, x);
    var keep := Elems(Roots(f)) + {x};
    PreNodes(f);
    RootsInNodes(f);
    ElemsSelect(Pre(f), keep);
    assert Elems(Roots(Promote(f, x))) == keep;
  }

  lemma {:induction false} ElemsSelect<T>(s: seq<T>, keep: set<T>)
    ensures Elems(Select(s, keep)) == Elems(s) * keep
  {
    if s != [] {
      ElemsSelect(s[1..], keep);
      ElemsConcat([s[0]], s[1..]);
      ElemsConcat(if s[0] in keep then [s[0]] else [], Select(s[1..], keep));
      assert s == [s[0]] + s[1..];
    }
  }

  lemma ReorderOrder<T>(f: Forest<T>, p: T, order: seq<T>)
    requires Distinct(f) && p in Nodes(f)
    requires NoDup(order) && Elems(order) == Elems(KidsOf(f, p))
    ensures Select(Pre(f), Elems(Roots(Reorder(f, p, order)))) == Roots(Reorder(f, p, order))
  {
    ReorderLinks(f, p, order, p);
    SelectRoots(f, Elems(Roots(f)));
    SelectAll(Roots(f), Elems(Roots(f)));
  }
}
