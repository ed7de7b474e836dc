/** The child order a nested reorder asks for, and when the length test accepts it.  */
module ChildOrders {
  import opened Forests
  import opened ForestOps

  /** The listed children: every requested entry that is a child, in request order, repeats kept. */
  ghost function Listed<T>(requested: seq<Option<T>>, kids: seq<T>): seq<T> {
    if requested == [] then []
    else
      (if requested[0].Some? && requested[0].value in kids then [requested[0].value] else []) + Listed(requested[1..], kids)
  }

  /** Children that the request leaves out, in their old order. */
  ghost function Unlisted<T>(listed: seq<T>, kids: seq<T>): seq<T> {
    Select(kids, Elems(kids) - Elems(listed))
  }

  ghost function Collected<T>(requested: seq<Option<T>>, kids: seq<T>): seq<T> {
    Listed(requested, kids) + Unlisted(Listed(requested, kids), kids)
  }

  lemma {:induction false} ListedInKids<T>(requested: seq<Option<T>>, kids: seq<T>)
    ensures Elems(Listed(requested, kids)) <= Elems(kids)
  {
    if requested != [] {
      ListedInKids(requested[1..], kids);
      ElemsConcat(if requested[0].Some? && requested[0].value in kids then [requested[0].value] else [],
                  Listed(requested[1..], kids));
    }
  }

  lemma {:induction false} ListedConcat<T>(a: seq<Option<T>>, b: seq<Option<T>>, kids: seq<T>)
    ensures Listed(a + b, kids) == Listed(a, kids) + Listed(b, kids)
  {
    if a == [] {
      assert a + b == b;
    } else {
      ListedConcat(a[1..], b, kids);
      assert (a + b)[1..] == a[1..] + b;
      var head := if a[0].Some? && a[0].value in kids then [a[0].value] else [];
      Assoc(head, Listed(a[1..], kids), Listed(b, kids));
    }
  }

  lemma ListedNext<T>(requested: seq<Option<T>>, i: nat, kids: seq<T>)
    requires i < |requested|
    ensures Listed(requested[..i + 1], kids) ==
            Listed(requested[..i], kids) +
            (if requested[i].Some? && requested[i].value in kids then [requested[i].value] else [])
  {
    assert requested[..i + 1] == requested[..i] + [requested[i]];
    ListedConcat(requested[..i], [requested[i]], kids);
  }

  /** A sequence is at least as long as its set of elements, and equally long only without repeats. */
  lemma {:induction false} CountElems<T>(s: seq<T>)
    ensures |Elems(s)| <= |s|
    ensures |Elems(s)| == |s| <==> NoDup(s)
  {
    if s != [] {
      var t := s[1..];
      CountElems(t);
      assert s == [s[0]] + t;
      ElemsConcat([s[0]], t);
      assert Elems([s[0]]) == {s[0]};
      if s[0] in t {
        assert Elems(s) == Elems(t);
        var i :| 0 <= i < |t| && t[i] == s[0];
        assert s[0] == s[i + 1];
      } else {
        assert s[0] !in Elems(t);
        assert |Elems(s)| == |Elems(t)| + 1;
        if NoDup(t) { NoDupCons(s[0], t); }
        if NoDup(s) {
          forall i, j | 0 <= i < j < |t| ensures t[i] != t[j] { assert s[i + 1] != s[j + 1]; }
        }
      }
    }
  }

  lemma {:induction false} SelectNoDup<T>(s: seq<T>, keep: set<T>)
    requires NoDup(s)
    ensures NoDup(Select(s, keep))
  {
    if s != [] {
      var t := s[1..];
      SelectNoDup(t, keep);
      ElemsSelect(t, keep);
      assert s[0] !in t;
      if s[0] in keep {
        assert s[0] !in Elems(Select(t, keep));
        NoDupCons(s[0], Select(t, keep));
      }
    }
  }

  /** The length test passes exactly when no child is listed twice; then the collected order
      is a permutation of the children. */
  lemma CollectedLength<T>(requested: seq<Option<T>>, kids: seq<T>)
    requires NoDup(kids)
    ensures Elems(Collected(requested, kids)) == Elems(kids)
    ensures |Collected(requested, kids)| == |kids| <==> NoDup(Listed(requested, kids))
    ensures |Collected(requested, kids)| == |kids| <==> NoDup(Collected(requested, kids))
    ensures |Collected(requested, kids)| >= |kids|
  {
    var l := Listed(requested, kids);
    var u := Unlisted(l, kids);
    ListedInKids(requested, kids);
    ElemsSelect(kids, Elems(kids) - Elems(l));
    assert Elems(u) == Elems(kids) - Elems(l);
    ElemsConcat(l, u);
    CountElems(l);
    CountElems(kids);
    SelectNoDup(kids, Elems(kids) - Elems(l));
    CountElems(u);
    CountElems(l + u);
    assert |Elems(kids)| == |Elems(l)| + |Elems(u)|;
  }

  // ---- The order, by positions ----

  /** a stands before b. */
  ghost predicate Before<T>(s: seq<T>, a: T, b: T) {
    exists i, j :: 0 <= i < j < |s| && s[i] == a && s[j] == b
  }

  /** No child is requested twice. */
  ghost predicate RequestedOnce<T>(requested: seq<Option<T>>, kids: seq<T>) {
    forall i, j :: 0 <= i < j < |requested| && requested[i] == requested[j] && requested[i].Some? ==>
      requested[i].value !in kids
  }

  /** What a reorder promises of two children that end up in this order: requested ones stand before
      the others and among themselves as in the request; the others keep their old order. */
  ghost predicate InOrder<T>(requested: seq<Option<T>>, kids: seq<T>, a: T, b: T) {
    if Some(b) in requested then Before(requested, Some(a), Some(b))
    else Some(a) in requested || Before(kids, a, b)
  }

  /** The same children, every two of them in order. */
  ghost predicate Rearranged<T>(requested: seq<Option<T>>, kids: seq<T>, order: seq<T>) {
    && Elems(order) == Elems(kids) && NoDup(order)
    && forall i, j :: 0 <= i < j < |order| ==> InOrder(requested, kids, order[i], order[j])
  }

  lemma {:induction false} ListedAt<T>(requested: seq<Option<T>>, kids: seq<T>, i: nat, j: nat)
    requires i < j < |Listed(requested, kids)|
    ensures var l := Listed(requested, kids); Before(requested, Some(l[i]), Some(l[j]))
  {
    var l, rest := Listed(requested, kids), Listed(requested[1..], kids);
    if requested[0].Some? && requested[0].value in kids {
      assert l == [requested[0].value] + rest;
      if i > 0 {
        ListedAt(requested[1..], kids, i - 1, j - 1);
        BeforeTail(requested, Some(l[i]), Some(l[j]));
      } else {
        assert l[j] in rest;
        ListedRequested(requested[1..], kids, l[j]);
        var k :| 0 <= k < |requested[1..]| && requested[1..][k] == Some(l[j]);
        assert requested[0] == Some(l[0]) && requested[k + 1] == Some(l[j]);
      }
    } else {
      assert l == rest;
      ListedAt(requested[1..], kids, i, j);
      BeforeTail(requested, Some(l[i]), Some(l[j]));
    }
  }

  lemma BeforeTail<T>(s: seq<T>, a: T, b: T)
    requires s != [] && Before(s[1..], a, b)
    ensures Before(s, a, b)
  {
    var i, j :| 0 <= i < j < |s[1..]| && s[1..][i] == a && s[1..][j] == b;
    assert s[i + 1] == a && s[j + 1] == b;
  }

  lemma {:induction false} ListedRequested<T>(requested: seq<Option<T>>, kids: seq<T>, c: T)
    ensures c in Listed(requested, kids) <==> Some(c) in requested && c in kids
  {
    if requested != [] {
      var rest := requested[1..];
      ListedRequested(rest, kids, c);
      assert requested == [requested[0]] + rest;
      assert Listed(requested, kids) ==
             (if requested[0].Some? && requested[0].value in kids then [requested[0].value] else []) + Listed(rest, kids);
    }
  }

  lemma {:induction false} SelectAt<T>(s: seq<T>, keep: set<T>, i: nat, j: nat)
    requires i < j < |Select(s, keep)|
    ensures Before(s, Select(s, keep)[i], Select(s, keep)[j])
  {
    var l, rest := Select(s, keep), Select(s[1..], keep);
    if s[0] in keep {
      assert l == [s[0]] + rest;
      if i > 0 {
        SelectAt(s[1..], keep, i - 1, j - 1);
        BeforeTail(s, l[i], l[j]);
      } else {
        ElemsSelect(s[1..], keep);
        assert l[j] in Elems(rest);
        assert l[j] in s[1..];
        var k :| 0 <= k < |s[1..]| && s[1..][k] == l[j];
        assert s[0] == l[0] && s[k + 1] == l[j];
      }
    } else {
      assert l == rest;
      SelectAt(s[1..], keep, i, j);
      BeforeTail(s, l[i], l[j]);
    }
  }

  /** The listed children repeat nothing exactly when no child is requested twice. */
  lemma {:induction false} ListedOnce<T>(requested: seq<Option<T>>, kids: seq<T>)
    ensures NoDup(Listed(requested, kids)) <==> RequestedOnce(requested, kids)
  {
    if requested != [] {
      var head, rest := requested[0], requested[1..];
      ListedOnce(rest, kids);
      assert forall i :: 0 <= i < |rest| ==> rest[i] == requested[i + 1];
      var l, tail := Listed(requested, kids), Listed(rest, kids);
      if head.Some? && head.value in kids {
        assert l == [head.value] + tail;
        ListedRequested(rest, kids, head.value);
        if head in rest {
          var k :| 0 <= k < |rest| && rest[k] == head;
          assert requested[0] == requested[k + 1];
          var m :| 0 <= m < |tail| && tail[m] == head.value;
          assert l[0] == l[m + 1];
        } else {
          OnceCons(requested, kids);
          if NoDup(tail) { NoDupCons(head.value, tail); }
          if NoDup(l) { NoDupTail(head.value, tail); }
        }
      } else {
        assert l == tail;
        OnceCons(requested, kids);
      }
    }
  }

  lemma NoDupTail<T>(x: T, s: seq<T>)
    requires NoDup([x] + s)
    ensures NoDup(s)
  {
    forall i, j | 0 <= i < j < |s| ensures s[i] != s[j] {
      assert ([x] + s)[i + 1] == s[i] && ([x] + s)[j + 1] == s[j];
    }
  }

  lemma OnceCons<T>(requested: seq<Option<T>>, kids: seq<T>)
    requires requested != [] && (requested[0] in requested[1..] && requested[0].Some? ==> requested[0].value !in kids)
    ensures RequestedOnce(requested, kids) <==> RequestedOnce(requested[1..], kids)
  {
    var rest := requested[1..];
    if RequestedOnce(requested, kids) {
      forall i, j | 0 <= i < j < |rest| && rest[i] == rest[j] && rest[i].Some? ensures rest[i].value !in kids {
        assert requested[i + 1] == requested[j + 1];
      }
    }
    if RequestedOnce(rest, kids) {
      forall i, j | 0 <= i < j < |requested| && requested[i] == requested[j] && requested[i].Some?
        ensures requested[i].value !in kids
      {
        assert requested[j] == rest[j - 1];
        if i > 0 { assert requested[i] == rest[i - 1]; }
      }
    }
  }

  /** The collected order keeps the promise exactly when no child is requested twice. */
  lemma CollectedIsRearranged<T>(requested: seq<Option<T>>, kids: seq<T>)
    requires NoDup(kids)
    ensures Rearranged(requested, kids, Collected(requested, kids)) <==> RequestedOnce(requested, kids)
    ensures RequestedOnce(requested, kids) <==> NoDup(Listed(requested, kids))
  {
    hide NoDup, InOrder, RequestedOnce, Listed, Select, Collected;
    ListedOnce(requested, kids);
    CollectedLength(requested, kids);
    if NoDup(Listed(requested, kids)) {
      forall i, j | 0 <= i < j < |Collected(requested, kids)|
        ensures InOrder(requested, kids, Collected(requested, kids)[i], Collected(requested, kids)[j])
      {
        CollectedAt(requested, kids, i, j);
      }
    }
  }

  lemma CollectedAt<T>(requested: seq<Option<T>>, kids: seq<T>, i: nat, j: nat)
    requires NoDup(kids) && i < j < |Collected(requested, kids)|
    requires NoDup(Listed(requested, kids)) && NoDup(Collected(requested, kids))
    ensures var c := Collected(requested, kids); InOrder(requested, kids, c[i], c[j])
  {
    hide Listed, Select, Before;
    var c, l := Collected(requested, kids), Listed(requested, kids);
    var keep := Elems(kids) - Elems(l);
    var u := Select(kids, keep);
    ElemsSelect(kids, keep);
    ListedInKids(requested, kids);
    assert c == l + u;
    if j < |l| {
      assert c[j] in l;
      ListedRequested(requested, kids, c[j]);
      ListedAt(requested, kids, i, j);
    } else {
      assert c[j] in Elems(u);
      ListedRequested(requested, kids, c[j]);
      if i < |l| {
        assert c[i] in l;
        ListedRequested(requested, kids, c[i]);
      } else {
        SelectAt(kids, keep, i - |l|, j - |l|);
      }
    }
  }

  // ---- The 8-bit length test ----

  /** The order a request collects, its length cut to the 8 bits of the child counter, passes the
      length test although a child is listed twice. */
  ghost predicate CounterFooled<T>(requested: seq<Option<T>>, kids: seq<T>) {
    !NoDup(Listed(requested, kids)) && (|Collected(requested, kids)| - |kids|) % 256 == 0
  }

  /** The 8-bit length test decides rightly, for every request, exactly when no child is listed
      twice or the surplus entries are not a multiple of 256. */
  lemma CounterDecidesExactly<T>(requested: seq<Option<T>>, kids: seq<T>)
    requires NoDup(kids) && |kids| < 256
    ensures (|Collected(requested, kids)| % 256 == |kids| <==> NoDup(Listed(requested, kids))) <==>
            NoDup(Listed(requested, kids)) || (|Collected(requested, kids)| - |kids|) % 256 != 0
    ensures |Collected(requested, kids)| < 256 ==> !CounterFooled(requested, kids)
  {
    hide Listed, Collected, Select, NoDup;
    CollectedLength(requested, kids);
  }

  /** The child counter is 8 bits wide. With two children a and b and a listed 257 times, the
      collected 258 entries are counted as 2, the length test passes, and b is lost. */
  lemma CounterOverflowLosesAChild<T>(a: T, b: T)
    requires a != b
    ensures exists requested: seq<Option<T>> ::
              var c := Collected(requested, [a, b]);
              |c| % 256 == 2 && c[..2] == [a, a]
  {
    var requested := seq(257, i => Some(a));
    RepeatListed(requested, a, [a, b]);
    var l := Listed(requested, [a, b]);
    assert Elems(l) == {a} by { assert l[0] == a; }
    var keep := Elems([a, b]) - Elems(l);
    assert keep == {b} by { assert [a, b][0] == a && [a, b][1] == b; }
    SelectConcat([a], [b], keep);
    SelectNone([a], keep);
    SelectAll([b], keep);
    assert [a, b] == [a] + [b];
    assert Collected(requested, [a, b])[..2] == [a, a];
  }

  lemma {:induction false} RepeatListed<T>(requested: seq<Option<T>>, a: T, kids: seq<T>)
    requires a in kids && forall i :: 0 <= i < |requested| ==> requested[i] == Some(a)
    ensures |Listed(requested, kids)| == |requested|
    ensures forall i :: 0 <= i < |requested| ==> Listed(requested, kids)[i] == a
  {
    if requested != [] {
      RepeatListed(requested[1..], a, kids);
    }
  }
}
