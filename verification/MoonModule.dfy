/** One module: identity, controls, and its two tree links. Child lists and parent links
    are edited in place by AddChild, RemoveChild and ReorderChildren.  */
module MoonModules {
  import opened Forests
  import opened ForestOps

  datatype CtrlType = Float | Uint8 | Uint16 | Uint32 | Bool | Text | EditText | FloatConst | Choice

  /** `cap` is the buffer capacity of an editable text (0 for a plain text). */
  datatype Control = Control(key: string, ctype: CtrlType, cap: nat, value: string) {
    predicate IsText() {
      ctype == Text || ctype == EditText
    }
  }

  /** 8-bit child counters with a capacity growing by four: 252 is the last capacity reached. */
  const MAX_CHILDREN: nat := 252

  /** First text control with the given key, or -1. */
  function FirstText(controls: seq<Control>, key: string): (i: int)
    ensures -1 <= i < |controls|
    ensures i >= 0 ==> controls[i].IsText() && controls[i].key == key
    ensures forall j :: 0 <= j < (if i >= 0 then i else |controls|) ==> !(controls[j].IsText() && controls[j].key == key)
  {
    if |controls| == 0 then -1
    else
      var i := FirstText(controls[..|controls| - 1], key);
      if i >= 0 then i
      else if controls[|controls| - 1].IsText() && controls[|controls| - 1].key == key then |controls| - 1
      else -1
  }

  /** The input that may carry the parent link: exact type, then category, then "source". */
  function ParentInput(controls: seq<Control>, parentType: string, parentCategory: string): (i: int)
    ensures -1 <= i < |controls|
    ensures i < 0 <==> FirstText(controls, parentType) < 0 && FirstText(controls, parentCategory) < 0
                       && FirstText(controls, "source") < 0
  {
    if FirstText(controls, parentType) >= 0 then FirstText(controls, parentType)
    else if FirstText(controls, parentCategory) >= 0 then FirstText(controls, parentCategory)
    else FirstText(controls, "source")
  }

  /** Some text control has the key. */
  predicate HasInput(controls: seq<Control>, key: string) {
    exists i :: 0 <= i < |controls| && controls[i].IsText() && controls[i].key == key
  }

  /** The accepting input is the first text control named for the parent's type if there is one,
      else for its category, else "source"; without any of these there is none. */
  lemma ParentInputPrecedence(controls: seq<Control>, parentType: string, parentCategory: string)
    ensures var i := ParentInput(controls, parentType, parentCategory);
            var key := if HasInput(controls, parentType) then parentType
                       else if HasInput(controls, parentCategory) then parentCategory else "source";
            && (i < 0 <==> !HasInput(controls, key))
            && (i >= 0 ==> controls[i].IsText() && controls[i].key == key &&
                           forall j :: 0 <= j < i ==> !(controls[j].IsText() && controls[j].key == key))
  {
    InputFound(controls, parentType);
    InputFound(controls, parentCategory);
    InputFound(controls, "source");
  }

  lemma InputFound(controls: seq<Control>, key: string)
    ensures FirstText(controls, key) >= 0 <==> HasInput(controls, key)
  {
  }

  /** What a bounded copy into a text buffer leaves there. */
  function Clipped(s: string, cap: nat): string {
    var room := if cap > 0 then cap - 1 else 63;
    if |s| <= room then s else s[..room]
  }

  /** The id and its closing zero have room in the text's buffer, of 64 characters if it is plain. */
  predicate Fits(id: string, c: Control) {
    |id| < if c.cap > 0 then c.cap else 64
  }

  /** The text holds the id, or as much of its start as there is room for. */
  ghost predicate HoldsId(c: Control, id: string) {
    && c.value <= id
    && (Fits(id, c) ==> c.value == id)
    && (!Fits(id, c) ==> |c.value| == if c.cap > 0 then c.cap - 1 else 63)
  }

  /** Only the text of control i differs, and that holds the id now. */
  ghost predicate Rewritten(before: seq<Control>, after: seq<Control>, i: int, id: string) {
    && |after| == |before| && 0 <= i < |after| && HoldsId(after[i], id)
    && after == before[i := before[i].(value := after[i].value)]
  }

  ghost function RemoveFirst<T>(s: seq<T>, x: T): seq<T> {
    if s == [] then [] else if s[0] == x then s[1..] else [s[0]] + RemoveFirst(s[1..], x)
  }

  lemma {:induction false} RemoveFirstAt<T>(s: seq<T>, x: T, i: nat)
    requires i < |s| && s[i] == x && x !in s[..i]
    ensures RemoveFirst(s, x) == s[..i] + s[i + 1..]
  {
    if i > 0 {
      assert s[0] == s[..i][0];
      assert s[..i] == [s[0]] + s[1..][..i - 1];
      RemoveFirstAt(s[1..], x, i - 1);
      assert s[1..][i..] == s[i + 1..];
    }
  }

  lemma {:induction false} RemoveFirstAbsent<T>(s: seq<T>, x: T)
    requires x !in s
    ensures RemoveFirst(s, x) == s
  {
    if s != [] {
      RemoveFirstAbsent(s[1..], x);
    }
  }

  lemma {:induction false} RemoveFirstWithout<T>(s: seq<T>, x: T)
    requires NoDup(s)
    ensures RemoveFirst(s, x) == Without(s, x)
  {
    if s != [] {
      if s[0] == x {
        WithoutAbsent(s[1..], x);
      } else {
        RemoveFirstWithout(s[1..], x);
      }
    }
  }

  class MoonModule {
    const id: string
    const typ: string
    const category: string
    const core: nat
    var controls: seq<Control>
    var children: seq<MoonModule>
    var parent: MoonModule?
    /** Index of the control that is the parent link, or -1. */
    var parentControlIdx: int
    var schemaDirty: bool
    var tickCount: nat

    constructor (id: string, typ: string, category: string, core: nat, controls: seq<Control>)
      ensures this.id == id && this.typ == typ && this.category == category && this.core == core
      ensures this.controls == controls && children == [] && parent == null && parentControlIdx == -1
      ensures tickCount == 0 && !schemaDirty
    {
      this.id, this.typ, this.category, this.core := id, typ, category, core;
      this.controls := controls;
      children, parent, parentControlIdx := [], null, -1;
      schemaDirty, tickCount := false, 0;
    }

    method AddChild(child: MoonModule)
      requires |children| < MAX_CHILDREN
      modifies this`children, child`parent
      ensures children == old(children) + [child]
      ensures child.parent == this
    {
      children := children + [child];
      child.parent := this;
    }

    /** Shifts the tail of the list down over the removed slot. */
    method RemoveChild(child: MoonModule)
      modifies this`children, child`parent
      ensures children == RemoveFirst(old(children), child)
      ensures child.parent == if child in old(children) then null else old(child.parent)
    {
      for i := 0 to |children|
        invariant children == old(children) && child.parent == old(child.parent)
        invariant child !in children[..i]
      {
        if children[i] == child {
          ghost var was := children;
          var n := |children|;
          for j := i to n - 1
            invariant |children| == n
            invariant forall k :: 0 <= k < i || j <= k < n ==> children[k] == was[k]
            invariant forall k :: i <= k < j ==> children[k] == was[k + 1]
            invariant child.parent == old(child.parent)
          {
            children := children[j := children[j + 1]];
          }
          children := children[..n - 1];
          child.parent := null;
          RemoveFirstAt(was, child, i);
          return;
        }
      }
      RemoveFirstAbsent(children, child);
    }

    /** Accepts a new order only if its length matches the child count. */
    method ReorderChildren(newOrder: seq<MoonModule>, count: nat) returns (ok: bool)
      requires count <= |newOrder|
      modifies this`children
      ensures ok <==> count == |old(children)|
      ensures children == if ok then newOrder[..count] else old(children)
    {
      if count != |children| { return false; }
      children := newOrder[..count];
      return true;
    }

    /** The parent link is an input: find the text control that may name `p`. */
    method ParentInputIdx(p: MoonModule) returns (idx: int)
      requires |controls| <= 127
      ensures idx == ParentInput(controls, p.typ, p.category)
    {
      var catIdx, sourceIdx := -1, -1;
      for i := 0 to |controls|
        invariant FirstText(controls[..i], p.typ) == -1
        invariant catIdx == FirstText(controls[..i], p.category)
        invariant sourceIdx == FirstText(controls[..i], "source")
      {
        assert controls[..i + 1][..i] == controls[..i];
        var d := controls[i];
        if d.IsText() {
          if d.key == p.typ {
            FirstTextPrefix(controls, i + 1, p.typ);
            return i;
          }
          if catIdx < 0 && d.key == p.category { catIdx := i; }
          if sourceIdx < 0 && d.key == "source" { sourceIdx := i; }
        }
      }
      assert controls[..|controls|] == controls;
      return if catIdx >= 0 then catIdx else sourceIdx;
    }
  }

  lemma {:induction false} FirstTextPrefix(controls: seq<Control>, n: nat, key: string)
    requires n <= |controls| && FirstText(controls[..n], key) >= 0
    ensures FirstText(controls, key) == FirstText(controls[..n], key)
    decreases |controls| - n
  {
    if n < |controls| {
      assert controls[..n + 1][..n] == controls[..n];
      FirstTextPrefix(controls, n + 1, key);
    } else {
      assert controls[..n] == controls;
    }
  }
}
