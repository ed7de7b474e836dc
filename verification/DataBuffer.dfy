/** The single-slot shared buffer with its revision word, and the per-reader cursor.  */
module DataBuffers {
  import opened Arithmetic

  /** The sentinels of the 32-bit revision word. */
  const NONE: nat := WORD - 1
  const DEAD: nat := WORD - 2

  /** The revision word after n publishes in one allocation epoch. */
  function Stamp(n: nat): (w: nat)
    ensures w < WORD
  {
    (n + WORD - 1) % WORD
  }

  /** What a reader that last released after `seen` publishes obtains after `published` ones. */
  predicate Delivers(published: nat, seen: nat) {
    published % WORD != 0 && published % WORD != WORD - 1 && (published - seen) % WORD != 0
  }

  /** The word is a sentinel exactly at the publish counts 0 and -1 modulo the word size. */
  lemma StampIsSentinel(n: nat)
    ensures Stamp(n) == NONE <==> n % WORD == 0
    ensures Stamp(n) == DEAD <==> n % WORD == WORD - 1
  {
    var q := n / WORD;
    assert n == WORD * q + n % WORD;
    StampShift(n % WORD, q);
  }

  lemma StampShift(r: nat, q: nat)
    ensures Stamp(r + WORD * q) == Stamp(r)
  {
    assert r + WORD * q + WORD - 1 == (r + WORD - 1) + WORD * q;
  }

  lemma StampInjective(a: nat, b: nat)
    ensures Stamp(a) == Stamp(b) <==> (a - b) % WORD == 0
  {
    var x, y := a + WORD - 1, b + WORD - 1;
    var qx, qy := x / WORD, y / WORD;
    assert a - b == x % WORD - y % WORD + WORD * (qx - qy);
    if Stamp(a) == Stamp(b) {
      assert (WORD * (qx - qy)) % WORD == 0;
    }
  }

  /** In an epoch of at most 2^32 - 2 publishes, a reader is served exactly when something was
      published after its last release. */
  lemma DeliversWithinEpoch(published: nat, seen: nat)
    requires seen <= published <= WORD - 2
    ensures Delivers(published, seen) <==> seen < published
  {
  }

  /** Whatever the cursor, a frame is delivered exactly when the word is no sentinel and not the
      word the reader released. For a cursor of the same epoch that is the promise above exactly
      when the word is no sentinel and has not come round to the reader's own. */
  lemma DeliversExactly(published: nat, seen: nat)
    ensures Delivers(published, seen) <==>
            Stamp(published) != NONE && Stamp(published) != DEAD && Stamp(published) != Stamp(seen)
    ensures seen <= published ==>
              ((Delivers(published, seen) <==> seen < published) <==>
               (seen == published ||
                (Stamp(published) != NONE && Stamp(published) != DEAD && Stamp(published) != Stamp(seen))))
  {
    StampIsSentinel(published);
    StampInjective(published, seen);
  }

  /** A cursor kept across a reallocation, where counting restarts: of the new epoch's first
      2^32 - 2 frames it misses exactly the one whose number is its own old count. */
  lemma KeptCursorMissesOneFrame(published: nat, seen: nat)
    requires 0 < published <= WORD - 2
    ensures Delivers(published, seen) <==> published != seen % WORD
  {
    var q := seen / WORD;
    assert published - seen == published - seen % WORD - WORD * q;
  }

  /** The first publish count at which a fresh frame goes unseen is 2^32 - 1. */
  lemma FirstMissedFrame()
    ensures !Delivers(WORD - 1, 0) && forall p: nat :: 0 < p < WORD - 1 ==> Delivers(p, 0)
  {
  }

  /** A request for n elements as the allocator sees it: a product of size_t words. */
  function Request(n: nat, elemSize: nat, sizeWord: nat): nat
    requires sizeWord > 0
  {
    n * elemSize % sizeWord
  }

  /** The granted bytes hold all elements exactly when the byte count fits a size_t. */
  lemma RequestHoldsAll(n: nat, elemSize: nat, sizeWord: nat)
    requires sizeWord > 0 && elemSize > 0
    ensures Request(n, elemSize, sizeWord) == n * elemSize <==> n * elemSize < sizeWord
    ensures Request(n, elemSize, sizeWord) / elemSize == n <==> n * elemSize < sizeWord
  {
    var b := n * elemSize;
    if b < sizeWord {
      Quotient(b, elemSize, n, 0);
    } else {
      assert b % sizeWord < sizeWord <= b;
      var r := b % sizeWord;
      assert r == r / elemSize * elemSize + r % elemSize;
      if r / elemSize >= n {
        ProductOrder(n, r / elemSize, elemSize);
      }
    }
  }

  class DataBuffer<T(0)> {
    /** The whole elements that the slot's memory holds. */
    var slot: array?<T>
    var count: nat
    var published: nat
    /** The size of an element, and the number of values of a size_t. */
    const elemSize: nat
    const sizeWord: nat
    /** Publishes since the last allocation. */
    ghost var publishes: nat
    ghost var dead: bool

    ghost predicate Valid()
      reads this
    {
      && elemSize > 0 && sizeWord > 0
      && (slot == null ==> count == 0) && (slot != null ==> slot.Length == SlotBytes() / elemSize)
      && published == if dead then DEAD else Stamp(publishes)
    }

    /** The slot's size in bytes, as its readers are told. */
    function SlotBytes(): nat
      requires sizeWord > 0
      reads this
    {
      count * elemSize % sizeWord
    }

    constructor (elemSize: nat, sizeWord: nat)
      requires elemSize > 0 && sizeWord > 0
      ensures Valid() && slot == null && publishes == 0 && !dead
      ensures this.elemSize == elemSize && this.sizeWord == sizeWord
    {
      this.elemSize, this.sizeWord := elemSize, sizeWord;
      slot, count, published := null, 0, NONE;
      publishes, dead := 0, false;
    }

    /** Drop the old slot and take a new one; `granted` is the allocator's answer to a request that
        is not empty. */
    method Allocate(n: nat, granted: bool) returns (ok: bool)
      requires Valid()
      modifies this
      ensures Valid() && publishes == 0 && !dead
      ensures ok <==> n == 0 || (granted && Request(n, elemSize, sizeWord) > 0)
      ensures n > 0 && ok ==> slot != null && fresh(slot) && count == n && SlotBytes() == Request(n, elemSize, sizeWord)
      ensures n > 0 && ok ==> (slot.Length == n <==> n * elemSize < sizeWord)
      ensures n == 0 || !ok ==> slot == null
    {
      slot, count, published := null, 0, NONE;
      publishes, dead := 0, false;
      if n == 0 { return true; }
      var bytes := n * elemSize % sizeWord;
      if bytes == 0 || !granted { return false; }
      RequestHoldsAll(n, elemSize, sizeWord);
      slot := new T[bytes / elemSize];
      count := n;
      return true;
    }

    method Publish()
      requires Valid() && !dead
      modifies this`published, this`publishes
      ensures Valid() && publishes == old(publishes) + 1
    {
      published := (published + 1) % WORD;
      StampNext(publishes);
      publishes := publishes + 1;
    }

    method Invalidate()
      requires Valid()
      modifies this`published, this`dead
      ensures Valid() && dead
    {
      published := DEAD;
      dead := true;
    }
  }

  lemma StampNext(n: nat)
    ensures Stamp(n + 1) == (Stamp(n) + 1) % WORD
  {
    var x := n + WORD - 1;
    assert x + 1 == WORD * (x / WORD) + x % WORD + 1;
    if x % WORD == WORD - 1 {
      assert x + 1 == WORD * (x / WORD + 1);
    }
  }

  class DataBufferReader<T(0)> {
    var buf: DataBuffer?<T>
    var consumed: nat
    /** The buffer's publish count at the last release, 0 after an attach. */
    ghost var seen: nat

    ghost predicate Valid()
      reads this
    {
      consumed == Stamp(seen)
    }

    constructor ()
      ensures Valid() && buf == null
    {
      buf, consumed, seen := null, NONE, 0;
    }

    method Attach(b: DataBuffer?<T>)
      modifies this
      ensures Valid() && buf == b && seen == 0
    {
      buf, consumed, seen := b, NONE, 0;
    }

    method Detach()
      requires Valid()
      modifies this`buf
      ensures Valid() && buf == null
    {
      buf := null;
    }

    /** The slot, if there is a frame this reader has not released yet. */
    method TryAcquireRead() returns (p: array?<T>)
      requires Valid() && (buf != null ==> buf.Valid())
      ensures p == if buf != null && !buf.dead && Delivers(buf.publishes, seen) then buf.slot else null
    {
      if buf == null { return null; }
      var pub := buf.published;
      StampIsSentinel(buf.publishes);
      StampInjective(buf.publishes, seen);
      if pub == NONE || pub == DEAD { return null; }
      if pub == consumed { return null; }
      return buf.slot;
    }

    method Dead() returns (d: bool)
      requires buf != null ==> buf.Valid()
      ensures d <==> buf != null && (buf.dead || buf.publishes % WORD == WORD - 1)
    {
      if buf != null { StampIsSentinel(buf.publishes); }
      return buf != null && buf.published == DEAD;
    }

    /** Only this reader's cursor moves. Releasing a dead buffer leaves the count whose word is the
        dead sentinel. */
    method ReleaseRead()
      requires Valid() && (buf != null ==> buf.Valid())
      modifies this`consumed, this`seen
      ensures Valid() && seen == if buf == null then old(seen) else if buf.dead then WORD - 1 else buf.publishes
    {
      if buf == null { return; }
      consumed := buf.published;
      seen := if buf.dead then WORD - 1 else buf.publishes;
      StampIsSentinel(seen);
    }
  }

  method PublishTimes<T(0)>(b: DataBuffer<T>, n: nat)
    requires b.Valid() && !b.dead
    modifies b`published, b`publishes
    ensures b.Valid() && b.publishes == old(b.publishes) + n
  {
    for i := 0 to n
      invariant b.Valid() && b.publishes == old(b.publishes) + i
    {
      b.Publish();
    }
  }

  /** A granted allocation of a request that is not empty. */
  method TakeSlot<T(0)>(b: DataBuffer<T>, size: nat)
    requires b.Valid() && size > 0 && Request(size, b.elemSize, b.sizeWord) > 0
    modifies b
    ensures b.Valid() && b.publishes == 0 && !b.dead && b.slot != null
  {
    var ok := b.Allocate(size, true);
  }

  /** A reader releases after some publishes and keeps its cursor while the buffer is allocated
      anew and published to again: it is served except when the two counts are the same. */
  method ReadAcrossReallocation<T(0)>(b: DataBuffer<T>, size: nat, before: nat, after: nat) returns (served: bool)
    requires b.Valid() && size > 0 && Request(size, b.elemSize, b.sizeWord) > 0
    modifies b
    ensures served <==> Delivers(after, before)
    ensures 0 < before <= WORD - 2 && 0 < after <= WORD - 2 ==> (served <==> after != before)
  {
    hide Request, Delivers, Stamp;
    TakeSlot(b, size);
    var r := new DataBufferReader<T>();
    r.Attach(b);
    PublishTimes(b, before);
    r.ReleaseRead();
    TakeSlot(b, size);
    PublishTimes(b, after);
    var p := r.TryAcquireRead();
    served := p != null;
    ShortEpochs(before, after);
  }

  lemma ShortEpochs(before: nat, after: nat)
    ensures 0 < before <= WORD - 2 && 0 < after <= WORD - 2 ==> (Delivers(after, before) <==> after != before)
  {
    hide Delivers;
    if 0 < after <= WORD - 2 {
      KeptCursorMissesOneFrame(after, before);
    }
  }
}
