/** Ordered forests in first-child / next-sibling form, and their traversals.

    A `Forest` is the abstract value behind the three views the runtime keeps of its
    module tree: the parent links, the child lists, and the flat owner list.  */
module Forests {

  datatype Option<+T> = None | Some(value: T)

  datatype Forest<T> = Empty | Grow(node: T, kids: Forest<T>, rest: Forest<T>)

  ghost function Nodes<T>(f: Forest<T>): set<T> {
    match f
    case Empty => {}
    case Grow(n, k, r) => {n} + Nodes(k) + Nodes(r)
  }

  /** No node occurs twice. */
  ghost predicate Distinct<T>(f: Forest<T>) {
    match f
    case Empty => true
    case Grow(n, k, r) =>
      && n !in Nodes(k) && n !in Nodes(r) && Nodes(k) !! Nodes(r)
      && Distinct(k) && Distinct(r)
  }

  /** Depth-first order, parents before children: the order the owner list is kept in. */
  ghost function Pre<T>(f: Forest<T>): seq<T> {
    match f
    case Empty => []
    case Grow(n, k, r) => [n] + Pre(k) + Pre(r)
  }

  /** Depth-first order, children before parents: the order of teardown. */
  ghost function Post<T>(f: Forest<T>): seq<T> {
    match f
    case Empty => []
    case Grow(n, k, r) => Post(k) + [n] + Post(r)
  }

  ghost function Roots<T>(f: Forest<T>): seq<T> {
    match f
    case Empty => []
    case Grow(n, _, r) => [n] + Roots(r)
  }

  ghost function Append<T>(f: Forest<T>, g: Forest<T>): Forest<T> {
    match f
    case Empty => g
    case Grow(n, k, r) => Grow(n, k, Append(r, g))
  }

  ghost function Leaf<T>(n: T): Forest<T> {
    Grow(n, Empty, Empty)
  }

  /** The forest of x's children. */
  ghost function SubOf<T>(f: Forest<T>, x: T): Forest<T> {
    match f
    case Empty => Empty
    case Grow(n, k, r) => if x == n then k else if x in Nodes(k) then SubOf(k, x) else SubOf(r, x)
  }

  ghost function KidsOf<T>(f: Forest<T>, x: T): seq<T> {
    Roots(SubOf(f, x))
  }

  ghost function ParentOf<T>(f: Forest<T>, x: T): Option<T> {
    match f
    case Empty => None
    case Grow(n, k, r) =>
      if x in Roots(k) then Some(n)
      else if x in Nodes(k) then ParentOf(k, x)
      else if x in Nodes(r) then ParentOf(r, x)
      else None
  }

  /** x and everything below it, as a one-tree forest. */
  ghost function TreeOf<T>(f: Forest<T>, x: T): Forest<T> {
    Grow(x, SubOf(f, x), Empty)
  }

  ghost predicate NoDup<T>(s: seq<T>) {
    forall i, j :: 0 <= i < j < |s| ==> s[i] != s[j]
  }

  ghost function Elems<T>(s: seq<T>): set<T> {
    set x | x in s
  }

  /** The elements of s that lie in keep, in their order in s. */
  ghost function Select<T>(s: seq<T>, keep: set<T>): seq<T> {
    if s == [] then [] else (if s[0] in keep then [s[0]] else []) + Select(s[1..], keep)
  }

  ghost function Without<T>(s: seq<T>, x: T): seq<T> {
    if s == [] then [] else if s[0] == x then Without(s[1..], x) else [s[0]] + Without(s[1..], x)
  }

  // ---- Basic facts ----

  lemma Assoc<T>(a: seq<T>, b: seq<T>, c: seq<T>)
    ensures a + b + c == a + (b + c)
  {
  }

  lemma NilMid<T>(a: seq<T>, b: seq<T>)
    ensures a + [] + b == a + b
  {
  }

  lemma ElemsConcat<T>(a: seq<T>, b: seq<T>)
    ensures Elems(a + b) == Elems(a) + Elems(b)
  {
  }

  lemma {:induction false} PreNodes<T>(f: Forest<T>)
    ensures Elems(Pre(f)) == Elems(Post(f)) == Nodes(f)
    ensures |Pre(f)| == |Post(f)|
  {
    if f.Grow? {
      PreNodes(f.kids);
      PreNodes(f.rest);
      ElemsConcat([f.node], Pre(f.kids));
      ElemsConcat([f.node] + Pre(f.kids), Pre(f.rest));
      ElemsConcat(Post(f.kids), [f.node]);
      ElemsConcat(Post(f.kids) + [f.node], Post(f.rest));
    }
  }

  lemma {:induction false} RootsInNodes<T>(f: Forest<T>)
    ensures Elems(Roots(f)) <= Nodes(f)
    ensures f.Empty? <==> Roots(f) == []
  {
    if f.Grow? {
      RootsInNodes(f.rest);
    }
  }

  lemma RootIn<T>(f: Forest<T>, x: T)
    ensures x in Roots(f) ==> x in Nodes(f)
  {
    RootsInNodes(f);
    assert x in Roots(f) ==> x in Elems(Roots(f));
  }

  lemma {:induction false} DistinctNoDup<T>(f: Forest<T>)
    requires Distinct(f)
    ensures NoDup(Pre(f))
  {
    if f.Grow? {
      DistinctNoDup(f.kids);
      DistinctNoDup(f.rest);
      PreNodes(f.kids);
      PreNodes(f.rest);
      var k, r := Pre(f.kids), Pre(f.rest);
      NoDupConcat(k, r);
      ElemsConcat(k, r);
      NoDupCons(f.node, k + r);
      Assoc([f.node], k, r);
    }
  }

  lemma {:induction false} DistinctRoots<T>(f: Forest<T>)
    requires Distinct(f)
    ensures NoDup(Roots(f))
  {
    if f.Grow? {
      DistinctRoots(f.rest);
      RootsInNodes(f.rest);
      NoDupCons(f.node, Roots(f.rest));
    }
  }

  lemma NoDupCons<T>(x: T, s: seq<T>)
    requires NoDup(s) && x !in Elems(s)
    ensures NoDup([x] + s)
  {
    forall i, j | 0 <= i < j < |[x] + s| ensures ([x] + s)[i] != ([x] + s)[j] {
      assert ([x] + s)[j] == s[j - 1] && s[j - 1] in Elems(s);
    }
  }

  lemma NoDupConcat<T>(a: seq<T>, b: seq<T>)
    requires NoDup(a) && NoDup(b) && Elems(a) !! Elems(b)
    ensures NoDup(a + b)
  {
    forall i, j | 0 <= i < j < |a + b| ensures (a + b)[i] != (a + b)[j] {
      if i < |a| <= j {
        assert a[i] in Elems(a) && b[j - |a|] in Elems(b);
      }
    }
  }

  lemma {:induction false} SubOfNodes<T>(f: Forest<T>, x: T)
    ensures Nodes(SubOf(f, x)) <= Nodes(f)
    ensures Distinct(f) ==> Distinct(SubOf(f, x)) && x !in Nodes(SubOf(f, x))
    ensures x !in Nodes(f) ==> SubOf(f, x) == Empty
  {
    if f.Grow? && f.node != x {
      SubOfNodes(f.kids, x);
      SubOfNodes(f.rest, x);
    }
  }

  lemma {:induction false} ParentInside<T>(f: Forest<T>, x: T)
    requires Distinct(f)
    ensures x !in Nodes(f) ==> ParentOf(f, x) == None
    ensures ParentOf(f, x).Some? ==> ParentOf(f, x).value in Nodes(f) && ParentOf(f, x).value != x
  {
    if f.Grow? {
      ParentInside(f.kids, x);
      ParentInside(f.rest, x);
      RootsInNodes(f.kids);
    }
  }

  /** The nodes without a parent are exactly the roots. */
  lemma {:induction false} ParentlessAreRoots<T>(f: Forest<T>, x: T)
    requires Distinct(f) && x in Nodes(f)
    ensures ParentOf(f, x) == None <==> x in Roots(f)
  {
    RootsInNodes(f.kids);
    RootsInNodes(f.rest);
    if x in Nodes(f.kids) {
      ParentlessAreRoots(f.kids, x);
    } else if x in Nodes(f.rest) {
      ParentlessAreRoots(f.rest, x);
    }
  }

  /** Parent links and child lists are inverse to each other. */
  lemma {:induction false} ParentChildInverse<T>(f: Forest<T>, p: T, c: T)
    requires Distinct(f) && p in Nodes(f)
    ensures c in KidsOf(f, p) <==> ParentOf(f, c) == Some(p)
  {
    RootsInNodes(f.kids);
    ParentInside(f.kids, c);
    ParentInside(f.rest, c);
    SubOfNodes(f.kids, p);
    SubOfNodes(f.rest, p);
    RootsInNodes(SubOf(f, p));
    if p in Nodes(f.kids) {
      ParentChildInverse(f.kids, p, c);
      if c in Nodes(f.kids) {
        ParentlessAreRoots(f.kids, c);
      }
    } else if p in Nodes(f.rest) {
      ParentChildInverse(f.rest, p, c);
    }
  }

  /** Below x, the whole forest and x's own subtree agree. */
  lemma {:induction false} SubOfSubOf<T>(f: Forest<T>, x: T, y: T)
    requires Distinct(f) && y in Nodes(SubOf(f, x))
    ensures SubOf(f, y) == SubOf(SubOf(f, x), y)
    ensures x in Nodes(f) && y in Nodes(f) && y != x
  {
    SubOfNodes(f, x);
    if f.Grow? && x != f.node {
      SubOfNodes(f.kids, x);
      SubOfNodes(f.rest, x);
      if x in Nodes(f.kids) {
        SubOfSubOf(f.kids, x, y);
      } else {
        SubOfSubOf(f.rest, x, y);
      }
    }
  }
}
