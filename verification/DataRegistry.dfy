/** The registry of shared buffers: a 16-slot array with swap-removal, against a finite map.  */
module DataRegistries {
  import opened Forests

  type Buffer = nat

  datatype Entry = Entry(id: string, buf: Buffer, count: nat, elemSize: nat, dims: (nat, nat, nat))

  const MAX_ENTRIES: nat := 16

  ghost predicate UniqueKeys(s: seq<Entry>) {
    forall i, j :: 0 <= i < j < |s| ==> s[i].id != s[j].id
  }

  // ---- The array's contents ----

  /** First position of an id, or the length. */
  function IndexOf(s: seq<Entry>, id: string): (i: nat)
    ensures i <= |s| && (i < |s| ==> s[i].id == id) && forall j :: 0 <= j < i ==> s[j].id != id
  {
    if s == [] then 0 else if s[0].id == id then 0 else 1 + IndexOf(s[1..], id)
  }

  function HolderOf(s: seq<Entry>, buf: Buffer): (i: nat)
    ensures i <= |s| && (i < |s| ==> s[i].buf == buf) && forall j :: 0 <= j < i ==> s[j].buf != buf
  {
    if s == [] then 0 else if s[0].buf == buf then 0 else 1 + HolderOf(s[1..], buf)
  }

  /** Overwrite the id's slot, or append while there is room. */
  function Declared(s: seq<Entry>, e: Entry): seq<Entry> {
    var i := IndexOf(s, e.id);
    if i < |s| then s[i := e] else if |s| < MAX_ENTRIES then s + [e] else s
  }

  /** The last entry moves into the removed slot. */
  function SwapRemoved(s: seq<Entry>, i: nat): seq<Entry>
    requires i < |s|
  {
    s[i := s[|s| - 1]][..|s| - 1]
  }

  function Undeclared(s: seq<Entry>, buf: Buffer): seq<Entry> {
    var i := HolderOf(s, buf);
    if i < |s| then SwapRemoved(s, i) else s
  }

  class DataRegistry {
    const entries: array<Option<Entry>>
    var count: nat

    ghost predicate Valid()
      reads this, entries
    {
      && entries.Length == MAX_ENTRIES && count <= MAX_ENTRIES
      && (forall i :: 0 <= i < count ==> entries[i].Some?)
      && (forall i :: count <= i < MAX_ENTRIES ==> entries[i] == None)
      && UniqueKeys(Contents())
    }

    ghost function Contents(): (s: seq<Entry>)
      reads this, entries
      requires count <= entries.Length && forall i :: 0 <= i < count ==> entries[i].Some?
      ensures |s| == count && forall i :: 0 <= i < count ==> s[i] == entries[i].value
    {
      seq(count, i requires 0 <= i < count reads this, entries requires count <= entries.Length && entries[i].Some? =>
        entries[i].value)
    }

    constructor ()
      ensures Valid() && Contents() == [] && fresh(entries)
    {
      count := 0;
      entries := new Option<Entry>[MAX_ENTRIES](_ => None);
    }

    /** Declare a buffer, or declare it anew under the same id. The result is the entry's slot. */
    method Declare(id: Option<string>, buf: Option<Buffer>, n: nat, elemSize: nat, dims: (nat, nat, nat)) returns (slot: Option<nat>)
      requires Valid()
      modifies this`count, entries
      ensures Valid()
      ensures id == None || buf == None ==> slot == None && Contents() == old(Contents())
      ensures id != None && buf != None ==>
                var e := Entry(id.value, buf.value, n, elemSize, dims);
                && Contents() == Declared(old(Contents()), e)
                && (slot == None <==> IndexOf(old(Contents()), e.id) == old(count) == MAX_ENTRIES)
                && (slot != None ==> slot.value < count && Contents()[slot.value] == e)
    {
      if id == None || buf == None {
        return None;
      }
      ghost var before := Contents();
      var e := Entry(id.value, buf.value, n, elemSize, dims);
      for i := 0 to count
        invariant count == old(count) && unchanged(entries) && Contents() == before
        invariant forall j :: 0 <= j < i ==> before[j].id != e.id
      {
        if entries[i].value.id == e.id {
          assert IndexOf(before, e.id) == i;
          entries[i] := Some(e);
          assert Contents() == before[i := e];
          return Some(i);
        }
      }
      assert IndexOf(before, e.id) == |before|;
      if count < MAX_ENTRIES {
        entries[count] := Some(e);
        count := count + 1;
        assert Contents() == before + [e];
        return Some(count - 1);
      }
      return None;
    }

    /** Remove the first entry that holds the buffer, filling its slot with the last one. */
    method Undeclare(buf: Buffer)
      requires Valid()
      modifies this`count, entries
      ensures Valid() && Contents() == Undeclared(old(Contents()), buf)
    {
      ghost var before := Contents();
      for i := 0 to count
        invariant count == old(count) && unchanged(entries) && Contents() == before
        invariant forall j :: 0 <= j < i ==> before[j].buf != buf
      {
        if entries[i].value.buf == buf {
          assert HolderOf(before, buf) == i;
          RemoveSlot(i);
          return;
        }
      }
      assert HolderOf(before, buf) == |before|;
    }

    method RemoveSlot(i: nat)
      requires Valid() && i < count
      modifies this`count, entries
      ensures Valid() && Contents() == SwapRemoved(old(Contents()), i)
    {
      hide Table, IndexOf, HolderOf;
      SwapRemovedAt(Contents(), i);
      ghost var after := SwapRemoved(Contents(), i);
      count := count - 1;
      entries[i] := entries[count];
      entries[count] := None;
      assert Contents() == after;
    }

    /** The entry of an id; none for a missing or empty id. */
    method Resolve(id: Option<string>) returns (e: Option<Entry>)
      requires Valid()
      ensures e == if id == None || id.value == "" then None else Lookup(Table(Contents()), id.value)
    {
      if id == None || |id.value| == 0 {
        return None;
      }
      ghost var s := Contents();
      TableAt(s, id.value);
      for i := 0 to count
        invariant forall j :: 0 <= j < i ==> s[j].id != id.value
      {
        if entries[i].value.id == id.value {
          assert IndexOf(s, id.value) == i;
          return Some(entries[i].value);
        }
      }
      return None;
    }
  }

  // ---- The map it stands for ----

  function Table(s: seq<Entry>): map<string, Entry> {
    if s == [] then map[] else Table(s[..|s| - 1])[s[|s| - 1].id := s[|s| - 1]]
  }

  function Lookup(m: map<string, Entry>, id: string): Option<Entry> {
    if id in m then Some(m[id]) else None
  }

  lemma {:induction false} TableAt(s: seq<Entry>, id: string)
    requires UniqueKeys(s)
    ensures var i := IndexOf(s, id);
            (id in Table(s) <==> i < |s|) && (i < |s| ==> Table(s)[id] == s[i])
  {
    if s != [] {
      var front, last := s[..|s| - 1], s[|s| - 1];
      TableAt(front, id);
      var i := IndexOf(s, id);
      if i < |s| - 1 {
        assert front[i].id == id;
      } else if last.id != id {
        assert forall j :: 0 <= j < |front| ==> front[j].id != id;
      }
    }
  }

  /** A table is full when the map has 16 keys: one entry per key. */
  lemma {:induction false} OneEntryPerKey(s: seq<Entry>)
    requires UniqueKeys(s)
    ensures |Table(s)| == |s|
  {
    if s != [] {
      var front, last := s[..|s| - 1], s[|s| - 1];
      OneEntryPerKey(front);
      TableAt(front, last.id);
      assert last.id !in Table(front);
      assert Table(s).Keys == Table(front).Keys + {last.id};
    }
  }

  /** Declaring is map update: it is refused only for a new id in a full table. */
  lemma DeclareIsUpdate(s: seq<Entry>, e: Entry)
    requires UniqueKeys(s) && |s| <= MAX_ENTRIES
    ensures UniqueKeys(Declared(s, e)) && |Declared(s, e)| <= MAX_ENTRIES
    ensures Table(Declared(s, e)) ==
            if e.id !in Table(s) && |Table(s)| == MAX_ENTRIES then Table(s) else Table(s)[e.id := e]
  {
    OneEntryPerKey(s);
    TableAt(s, e.id);
    var t := Declared(s, e);
    var want := if e.id !in Table(s) && |Table(s)| == MAX_ENTRIES then Table(s) else Table(s)[e.id := e];
    forall id ensures Lookup(Table(t), id) == Lookup(want, id) {
      TableAt(s, id);
      TableAt(t, id);
      LookupDeclared(s, e, id);
    }
    SameMap(Table(t), want);
  }

  lemma LookupDeclared(s: seq<Entry>, e: Entry, id: string)
    requires UniqueKeys(s)
    ensures var t := Declared(s, e);
            UniqueKeys(t) &&
            (if id == e.id && (IndexOf(s, id) < |s| || |s| < MAX_ENTRIES) then IndexOf(t, id) < |t| && t[IndexOf(t, id)] == e
             else (IndexOf(t, id) < |t| <==> IndexOf(s, id) < |s|) && (IndexOf(s, id) < |s| ==> t[IndexOf(t, id)] == s[IndexOf(s, id)]))
  {
    var t, i, k := Declared(s, e), IndexOf(s, e.id), IndexOf(s, id);
    if i < |s| {
      assert t[i] == e;
      if k < |s| { assert t[k].id == id; }
    } else if |s| < MAX_ENTRIES {
      assert t[|s|] == e;
      if k < |s| { assert t[k] == s[k]; }
    }
  }

  lemma SameMap(a: map<string, Entry>, b: map<string, Entry>)
    requires forall id :: Lookup(a, id) == Lookup(b, id)
    ensures a == b
  {
    forall id ensures id in a <==> id in b {
      assert Lookup(a, id) == Lookup(b, id);
    }
    forall id | id in a ensures a[id] == b[id] {
      assert Lookup(a, id) == Lookup(b, id);
    }
  }

  lemma SwapRemovedAt(s: seq<Entry>, i: nat)
    requires UniqueKeys(s) && i < |s|
    ensures var t := SwapRemoved(s, i);
            && |t| == |s| - 1 && (forall j :: 0 <= j < |t| ==> t[j] == if j == i then s[|s| - 1] else s[j])
            && UniqueKeys(t)
  {
  }

  /** An entry in the list is what its key finds. */
  lemma FoundAt(s: seq<Entry>, k: nat)
    requires UniqueKeys(s) && k < |s|
    ensures Lookup(Table(s), s[k].id) == Some(s[k])
  {
    hide Table;
    TableAt(s, s[k].id);
    assert IndexOf(s, s[k].id) == k;
  }

  lemma NotFound(s: seq<Entry>, id: string)
    requires UniqueKeys(s) && forall j :: 0 <= j < |s| ==> s[j].id != id
    ensures Lookup(Table(s), id) == None
  {
    hide Table;
    TableAt(s, id);
  }

  lemma SwapLookup(s: seq<Entry>, i: nat, id: string)
    requires UniqueKeys(s) && i < |s|
    ensures Lookup(Table(SwapRemoved(s, i)), id) == if id == s[i].id then None else Lookup(Table(s), id)
  {
    hide Table, SwapRemoved, IndexOf, Lookup;
    SwapRemovedAt(s, i);
    var t, k := SwapRemoved(s, i), IndexOf(s, id);
    if k == |s| {
      NotFound(s, id);
      NotFound(t, id);
    } else if id == s[i].id {
      NotFound(t, id);
    } else {
      FoundAt(s, k);
      FoundAt(t, if k == |s| - 1 then i else k);
    }
  }

  /** Despite the swap, removing a slot removes its key and nothing else. */
  lemma SwapRemovesOneKey(s: seq<Entry>, i: nat)
    requires UniqueKeys(s) && i < |s|
    ensures UniqueKeys(SwapRemoved(s, i)) && Table(SwapRemoved(s, i)) == Table(s) - {s[i].id}
  {
    hide Table, SwapRemoved;
    SwapRemovedAt(s, i);
    var t, want := SwapRemoved(s, i), Table(s) - {s[i].id};
    forall id ensures Lookup(Table(t), id) == Lookup(want, id) {
      SwapLookup(s, i, id);
    }
    SameMap(Table(t), want);
  }

  /** No buffer stands under two ids. */
  ghost predicate OneIdEach(m: map<string, Entry>) {
    forall a, b :: a in m && b in m && m[a].buf == m[b].buf ==> a == b
  }

  /** Undeclaring drops every entry of the buffer exactly when it stood under at most one id. */
  lemma UndeclareDropsBuffer(s: seq<Entry>, buf: Buffer)
    requires UniqueKeys(s)
    ensures UniqueKeys(Undeclared(s, buf))
    ensures Table(Undeclared(s, buf)) == (map id | id in Table(s) && Table(s)[id].buf != buf :: Table(s)[id]) <==>
            (forall a, b :: a in Table(s) && b in Table(s) && Table(s)[a].buf == buf == Table(s)[b].buf ==> a == b)
  {
    var m := Table(s);
    var want := map id | id in m && m[id].buf != buf :: m[id];
    var i := HolderOf(s, buf);
    if i < |s| {
      SwapRemovesOneKey(s, i);
      TableAt(s, s[i].id);
      assert IndexOf(s, s[i].id) == i;
      assert m[s[i].id] == s[i];
      var left := m - {s[i].id};
      if a, b :| a in m && b in m && m[a].buf == buf == m[b].buf && a != b {
        var other := if a == s[i].id then b else a;
        assert other in left && other !in want;
      } else {
        assert left == want;
      }
    } else {
      forall id | id in m ensures m[id].buf != buf {
        TableAt(s, id);
      }
      assert m == want;
    }
  }

  // ---- Runs ----

  datatype Op = Declare(e: Entry) | Undeclare(buf: Buffer)

  function SlotRun(ops: seq<Op>): seq<Entry> {
    if ops == [] then []
    else
      var before := SlotRun(ops[..|ops| - 1]);
      match ops[|ops| - 1]
      case Declare(e) => Declared(before, e)
      case Undeclare(buf) => Undeclared(before, buf)
  }

  /** A buffer declared under two ids keeps one of them when it is undeclared. */
  lemma SharedBufferSurvives(a: Entry, b: Entry)
    requires a.id != b.id && a.buf == b.buf
    ensures SlotRun([Declare(a), Declare(b), Undeclare(a.buf)]) == [b]
  {
    var ops := [Declare(a), Declare(b), Undeclare(a.buf)];
    assert ops[..2] == [Declare(a), Declare(b)] && [Declare(a), Declare(b)][..1] == [Declare(a)] && [Declare(a)][..0] == [];
    assert SlotRun([]) == [] && [] + [a] == [a];
    assert SlotRun([Declare(a)]) == [a];
    assert [a][1..] == [] && IndexOf([a], b.id) == 1 && [a] + [b] == [a, b];
    assert SlotRun([Declare(a), Declare(b)]) == [a, b];
    assert HolderOf([a, b], a.buf) == 0;
  }

  function MapRun(ops: seq<Op>): map<string, Entry> {
    if ops == [] then map[]
    else
      var m := MapRun(ops[..|ops| - 1]);
      match ops[|ops| - 1]
      case Declare(e) => if e.id !in m && |m| == MAX_ENTRIES then m else m[e.id := e]
      case Undeclare(buf) => map id | id in m && m[id].buf != buf :: m[id]
  }

  /** Over any run in which a buffer is never declared while it stands under another id, the array
      is the map. */
  lemma {:induction false} SlotsRefineMap(ops: seq<Op>)
    requires forall n :: 0 <= n < |ops| && ops[n].Declare? ==>
               var m := MapRun(ops[..n]);
               forall id :: id in m && m[id].buf == ops[n].e.buf ==> id == ops[n].e.id
    ensures UniqueKeys(SlotRun(ops)) && |SlotRun(ops)| <= MAX_ENTRIES
    ensures Table(SlotRun(ops)) == MapRun(ops) && OneIdEach(MapRun(ops))
  {
    if ops != [] {
      var front := ops[..|ops| - 1];
      assert forall n :: 0 <= n <= |front| ==> front[..n] == ops[..n];
      SlotsRefineMap(front);
      match ops[|ops| - 1]
      case Declare(e) => DeclareIsUpdate(SlotRun(front), e);
      case Undeclare(buf) => UndeclareDropsBuffer(SlotRun(front), buf);
    }
  }
}
