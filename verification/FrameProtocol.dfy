/** Frame sharing across cores: every core runs its passes under the manager's lock, and within
    a pass it renders, copies and publishes frames or consumes them, one pixel at a time.  */
module FrameProtocol {
  import opened Arithmetic
  import opened DataBuffers

  /** Where a core stands. Anything but Outside is inside a pass. */
  datatype Pc<T> =
    | Outside
    | Holding
    | Copying(next: nat)
    | Reading(reader: nat, next: nat, got: seq<T>)

  /** A frame handed to a reader: how often the reader had attached, the frame's allocation epoch and
      its publish count in it, its pixels, and the pixels of the latest publish at the moment the
      reader released it. */
  datatype Delivery<T> = Delivery(reader: nat, attachment: nat, epoch: nat, stamp: nat, frame: seq<T>, latest: seq<T>)

  /** One buffer over any number of allocation epochs. `size` is the slot length; `pixels` the
      producer's own array; `latest` the pixels of the last publish. For each reader `seen` is the
      publish count of its cursor, `since` the epoch in which the cursor was last set, and
      `attachments` the number of times it has attached anew. */
  datatype State<T> = State(size: nat, lock: int, pcs: seq<Pc<T>>, pixels: seq<T>, slot: seq<T>, epoch: nat,
                            publishes: nat, latest: seq<T>, seen: seq<nat>, since: seq<nat>, attachments: seq<nat>,
                            log: seq<Delivery<T>>)

  datatype Step<T> =
    | Lock(core: nat)
    | Unlock(core: nat)
    | Allocate(core: nat, pixels: seq<T>, slot: seq<T>)
    | Render(core: nat, frame: seq<T>)
    | CopyPixel(core: nat)
    | Publish(core: nat)
    | Attach(core: nat, reader: nat)
    | TryAcquire(core: nat, reader: nat)
    | ReadPixel(core: nat)
    | Release(core: nat)

  const NOBODY := -1

  /** When a step can be taken. Only `Lock` looks at the lock, if `locking`; the rest follow program
      order. */
  ghost predicate Enabled<T>(s: State<T>, a: Step<T>, locking: bool) {
    && a.core < |s.pcs|
    && match a
       case Lock(c) => s.pcs[c].Outside? && (locking ==> s.lock == NOBODY)
       case Unlock(c) => s.pcs[c].Holding?
       case Allocate(c, pixels, slot) => s.pcs[c].Holding? && |pixels| == |slot|
       case Render(c, frame) => s.pcs[c].Holding? && |frame| == s.size
       case CopyPixel(c) => s.pcs[c].Copying? && s.pcs[c].next < s.size
       case Publish(c) => s.pcs[c].Copying? && s.pcs[c].next == s.size
       case Attach(c, r) => s.pcs[c].Holding? && r < |s.seen|
       case TryAcquire(c, r) => s.pcs[c].Holding? && r < |s.seen|
       case ReadPixel(c) => s.pcs[c].Reading? && s.pcs[c].next < s.size
       case Release(c) => s.pcs[c].Reading? && s.pcs[c].next == s.size
  }

  ghost function Apply<T>(s: State<T>, a: Step<T>): State<T>
    requires Shaped(s) && Enabled(s, a, false)
  {
    match a
    case Lock(c) => s.(lock := c, pcs := s.pcs[c := Holding])
    case Unlock(c) => s.(lock := NOBODY, pcs := s.pcs[c := Outside])
    case Allocate(c, pixels, slot) =>
      s.(size := |slot|, pixels := pixels, slot := slot, publishes := 0, epoch := s.epoch + 1)
    case Render(c, frame) => s.(pixels := frame, pcs := s.pcs[c := Copying(0)])
    case CopyPixel(c) =>
      var i := s.pcs[c].next;
      s.(slot := s.slot[i := s.pixels[i]], pcs := s.pcs[c := Copying(i + 1)])
    case Publish(c) => s.(publishes := s.publishes + 1, latest := s.pixels, pcs := s.pcs[c := Holding])
    case Attach(c, r) =>
      s.(seen := s.seen[r := 0], since := s.since[r := s.epoch], attachments := s.attachments[r := s.attachments[r] + 1])
    case TryAcquire(c, r) =>
      if Delivers(s.publishes, s.seen[r]) then s.(pcs := s.pcs[c := Reading(r, 0, [])]) else s
    case ReadPixel(c) =>
      var p := s.pcs[c];
      s.(pcs := s.pcs[c := p.(next := p.next + 1, got := p.got + [s.slot[p.next]])])
    case Release(c) =>
      var p := s.pcs[c];
      s.(seen := s.seen[p.reader := s.publishes], since := s.since[p.reader := s.epoch], pcs := s.pcs[c := Holding],
         log := s.log + [Delivery(p.reader, s.attachments[p.reader], s.epoch, s.publishes, p.got, s.latest)])
  }

  ghost predicate Shaped<T>(s: State<T>) {
    && |s.pixels| == |s.slot| == s.size && |s.attachments| == |s.since| == |s.seen|
    && forall c :: 0 <= c < |s.pcs| && s.pcs[c].Reading? ==> s.pcs[c].reader < |s.seen|
  }

  /** A fresh epoch: nobody inside a pass, nothing published, every reader newly attached. */
  ghost predicate Start<T>(s: State<T>) {
    && Shaped(s) && s.lock == NOBODY && (forall c :: 0 <= c < |s.pcs| ==> s.pcs[c].Outside?)
    && s.publishes == 0 && (forall r :: 0 <= r < |s.seen| ==> s.seen[r] == 0 && s.since[r] == s.epoch) && s.log == []
  }

  /** The steps can be taken one after another. */
  ghost predicate Possible<T>(s: State<T>, run: seq<Step<T>>, locking: bool)
    decreases run
  {
    run == [] || (Shaped(s) && Enabled(s, run[0], locking) && Possible(Apply(s, run[0]), run[1..], locking))
  }

  ghost function After<T>(s: State<T>, run: seq<Step<T>>, locking: bool): State<T>
    requires Possible(s, run, locking)
    decreases run
  {
    if run == [] then s else After(Apply(s, run[0]), run[1..], locking)
  }

  // ---- Invariant ----

  /** The one core inside a pass, if any, holds the lock. */
  ghost predicate Exclusive<T>(s: State<T>) {
    forall c :: 0 <= c < |s.pcs| ==> (!s.pcs[c].Outside? <==> s.lock == c)
  }

  ghost predicate SomeoneCopies<T>(s: State<T>) {
    exists c :: 0 <= c < |s.pcs| && s.pcs[c].Copying?
  }

  /** What a core in the middle of something has done so far. */
  ghost predicate PcOk<T>(s: State<T>, p: Pc<T>)
    requires Shaped(s)
  {
    match p
    case Outside => true
    case Holding => true
    case Copying(i) => i <= s.size && s.slot[..i] == s.pixels[..i]
    case Reading(r, i, got) =>
      && s.publishes > 0 && i <= s.size && got == s.slot[..i]
      && r < |s.seen| && Delivers(s.publishes, s.seen[r])
  }

  ghost predicate Consistent<T>(s: State<T>) {
    && Shaped(s) && Exclusive(s)
    && (forall c :: 0 <= c < |s.pcs| ==> PcOk(s, s.pcs[c]))
    && (s.publishes > 0 && !SomeoneCopies(s) ==> s.slot == s.latest)
    && (forall r :: 0 <= r < |s.seen| ==> s.since[r] <= s.epoch && (s.since[r] == s.epoch ==> s.seen[r] <= s.publishes))
  }

  /** A publish count whose word is no sentinel. */
  predicate Readable(n: nat) {
    n % WORD != 0 && n % WORD != WORD - 1
  }

  /** Every delivered frame is the complete latest publish, and its revision is no sentinel. For each
      reader the epochs never fall; within an epoch the publish counts never fall, and rise from one
      delivery to the next of the same attachment. */
  ghost predicate LogOk<T>(s: State<T>)
    requires Shaped(s)
  {
    && (forall d :: d in s.log ==>
          && d.frame == d.latest && d.reader < |s.seen| && Readable(d.stamp)
          && d.epoch <= s.epoch && (d.epoch == s.epoch ==> d.stamp <= s.publishes)
          && d.attachment <= s.attachments[d.reader]
          && (d.epoch == s.epoch && d.attachment == s.attachments[d.reader] ==>
                s.since[d.reader] == s.epoch && d.stamp <= s.seen[d.reader]))
    && (forall i, j :: 0 <= i < j < |s.log| && s.log[i].reader == s.log[j].reader ==>
          && s.log[i].epoch <= s.log[j].epoch
          && (s.log[i].epoch == s.log[j].epoch ==> s.log[i].stamp <= s.log[j].stamp)
          && (s.log[i].epoch == s.log[j].epoch && s.log[i].attachment == s.log[j].attachment ==>
                s.log[i].stamp < s.log[j].stamp))
  }

  lemma StartConsistent<T>(s: State<T>)
    requires Start(s)
    ensures Consistent(s) && LogOk(s)
  {
  }

  lemma DeliversMeansNew(published: nat, seen: nat)
    requires Delivers(published, seen)
    ensures Readable(published) && published > 0 && seen != published
  {
  }

  lemma StepKeepsConsistent<T>(s: State<T>, a: Step<T>)
    requires Consistent(s) && Enabled(s, a, true)
    ensures Consistent(Apply(s, a))
  {
    var c := a.core;
    var t := Apply(s, a);
    match a
    case Lock(_) => assert !SomeoneCopies(s) && !SomeoneCopies(t);
    case Unlock(_) => NotCopying(s, t, c);
    case Allocate(_, _, _) => NotCopying(s, t, c);
    case Render(_, _) => assert t.pcs[c].Copying?;
    case CopyPixel(_) =>
      assert t.pcs[c].Copying?;
      var i := s.pcs[c].next;
      assert t.slot[..i + 1] == s.slot[..i] + [s.pixels[i]];
      assert s.pixels[..i + 1] == s.pixels[..i] + [s.pixels[i]];
    case Publish(_) =>
      assert s.slot[..s.size] == s.slot && s.pixels[..s.size] == s.pixels;
    case Attach(_, _) => NotCopying(s, t, c);
    case TryAcquire(_, r) =>
      NotCopying(s, t, c);
      if Delivers(s.publishes, s.seen[r]) { DeliversMeansNew(s.publishes, s.seen[r]); }
    case ReadPixel(_) =>
      NotCopying(s, t, c);
      var i := s.pcs[c].next;
      assert s.slot[..i + 1] == s.slot[..i] + [s.slot[i]];
    case Release(_) => NotCopying(s, t, c);
  }

  /** If the core inside the pass is not copying, nobody is. */
  lemma NotCopying<T>(s: State<T>, t: State<T>, c: nat)
    requires Exclusive(s) && c < |s.pcs| == |t.pcs| && !s.pcs[c].Outside? && !s.pcs[c].Copying? && !t.pcs[c].Copying?
    requires forall k :: 0 <= k < |s.pcs| && k != c ==> t.pcs[k] == s.pcs[k]
    ensures !SomeoneCopies(s) && !SomeoneCopies(t)
  {
  }

  lemma StepKeepsLog<T>(s: State<T>, a: Step<T>)
    requires Consistent(s) && LogOk(s) && Enabled(s, a, true)
    ensures LogOk(Apply(s, a))
  {
    if a.Release? {
      NotCopying(s, s, a.core);
      DeliversMeansNew(s.publishes, s.seen[s.pcs[a.core].reader]);
      assert s.slot[..s.size] == s.slot;
    }
  }

  /** In every run of any number of cores, over any number of allocations: each frame a reader gets
      is the complete content of the latest publish, never a mixture, and within an epoch the publish
      counts it consumes rise strictly from attach to attach. */
  lemma {:induction false} EveryDeliveryIsWhole<T>(s: State<T>, run: seq<Step<T>>)
    requires Consistent(s) && LogOk(s) && Possible(s, run, true)
    ensures Consistent(After(s, run, true)) && LogOk(After(s, run, true))
    decreases run
  {
    if run != [] {
      StepKeepsConsistent(s, run[0]);
      StepKeepsLog(s, run[0]);
      EveryDeliveryIsWhole(Apply(s, run[0]), run[1..]);
    }
  }

  /** From the start, the 32-bit revisions a reader consumes are no sentinel. Those of one epoch
      never fall, and rise strictly within an attachment, up to publish number 2^32 - 2. */
  lemma RevisionsRise<T>(s: State<T>, run: seq<Step<T>>, i: nat, j: nat)
    requires Start(s) && Possible(s, run, true)
    requires i <= j < |After(s, run, true).log|
    ensures var d, e := After(s, run, true).log[i], After(s, run, true).log[j];
            && d.frame == d.latest && Stamp(d.stamp) != NONE && Stamp(d.stamp) != DEAD
            && (d.reader == e.reader ==> d.epoch <= e.epoch)
            && (d.reader == e.reader && d.epoch == e.epoch && e.stamp <= WORD - 2 ==>
                  && Stamp(d.stamp) <= Stamp(e.stamp)
                  && (i < j && d.attachment == e.attachment ==> Stamp(d.stamp) < Stamp(e.stamp)))
  {
    StartConsistent(s);
    EveryDeliveryIsWhole(s, run);
    var d, e := After(s, run, true).log[i], After(s, run, true).log[j];
    assert d in After(s, run, true).log && e in After(s, run, true).log;
    StampIsSentinel(d.stamp);
  }

  /** A reader inside a pass is refused exactly when nothing is published in the epoch or the latest
      publish has the number of its cursor; if it has attached or released in this epoch, exactly
      when it has released the latest publish since. */
  lemma RefusedOnlyWhenUpToDate<T>(s: State<T>, run: seq<Step<T>>, core: nat, reader: nat)
    requires Start(s) && Possible(s, run, true) && After(s, run, true).publishes <= WORD - 2
    requires Enabled(After(s, run, true), TryAcquire(core, reader), true)
    ensures var t := After(s, run, true);
            && Shaped(t)
            && (Apply(t, TryAcquire(core, reader)) == t <==> t.publishes == 0 || t.seen[reader] % WORD == t.publishes)
            && (t.since[reader] == t.epoch ==> (Apply(t, TryAcquire(core, reader)) == t <==> t.seen[reader] == t.publishes))
  {
    StartConsistent(s);
    EveryDeliveryIsWhole(s, run);
    var t := After(s, run, true);
    if t.publishes > 0 {
      KeptCursorMissesOneFrame(t.publishes, t.seen[reader]);
    }
    if t.since[reader] == t.epoch {
      DeliversWithinEpoch(t.publishes, t.seen[reader]);
    }
    if Delivers(t.publishes, t.seen[reader]) {
      assert Apply(t, TryAcquire(core, reader)).pcs[core] != t.pcs[core];
    }
  }

  /** One reader's step moves no other reader's cursor, publishes nothing and writes no pixel, with
      or without the lock. */
  lemma ReadersAreIndependent<T>(s: State<T>, a: Step<T>, other: nat)
    requires Shaped(s) && Enabled(s, a, false) && (a.Attach? || a.TryAcquire? || a.ReadPixel? || a.Release?)
    requires other < |s.seen| && (a.Attach? ==> a.reader != other) && (a.Release? ==> s.pcs[a.core].reader != other)
    ensures Delivers(Apply(s, a).publishes, Apply(s, a).seen[other]) == Delivers(s.publishes, s.seen[other])
    ensures Apply(s, a).slot == s.slot && Apply(s, a).latest == s.latest
  {
  }

  // ---- Without the lock ----

  lemma {:induction false} RunsJoin<T>(s: State<T>, a: seq<Step<T>>, b: seq<Step<T>>)
    requires Possible(s, a, false) && Possible(After(s, a, false), b, false)
    ensures Possible(s, a + b, false) && After(s, a + b, false) == After(After(s, a, false), b, false)
    decreases a
  {
    if a == [] {
      assert a + b == b;
    } else {
      RunsJoin(Apply(s, a[0]), a[1..], b);
      assert (a + b)[1..] == a[1..] + b;
    }
  }

  lemma OneStep<T>(s: State<T>, a: Step<T>)
    requires Shaped(s) && Enabled(s, a, false)
    ensures Possible(s, [a], false) && After(s, [a], false) == Apply(s, a)
  {
    assert [a][1..] == [];
    assert Possible(Apply(s, a), [], false);
  }

  /** One more step of a run under construction. */
  lemma Longer<T>(s: State<T>, run: seq<Step<T>>, a: Step<T>)
    requires Possible(s, run, false) && Shaped(After(s, run, false)) && Enabled(After(s, run, false), a, false)
    ensures Possible(s, run + [a], false) && After(s, run + [a], false) == Apply(After(s, run, false), a)
  {
    OneStep(After(s, run, false), a);
    RunsJoin(s, run, [a]);
  }

  /** Two cores, one reader, two-pixel frames. */
  function Epoch<T>(lock: int, pcs: seq<Pc<T>>, pixels: seq<T>, slot: seq<T>, publishes: nat, latest: seq<T>,
                    seen: nat, log: seq<Delivery<T>>): State<T> {
    State(2, lock, pcs, pixels, slot, 0, publishes, latest, [seen], [0], [0], log)
  }

  /** The producer's first frame, from a fresh epoch. */
  lemma FirstFrame<T>(a: T, b: T) returns (run: seq<Step<T>>)
    ensures var s := Epoch(NOBODY, [Outside, Outside], [b, b], [b, b], 0, [b, b], 0, []);
            && Possible(s, run, false)
            && After(s, run, false) == Epoch(0, [Holding, Outside], [a, a], [a, a], 1, [a, a], 0, [])
  {
    var s := Epoch(NOBODY, [Outside, Outside], [b, b], [b, b], 0, [b, b], 0, []);
    OneStep(s, Lock(0));
    run := [Lock(0)];
    assert After(s, run, false) == Epoch(0, [Holding, Outside], [b, b], [b, b], 0, [b, b], 0, []);
    Longer(s, run, Render(0, [a, a]));
    run := run + [Render(0, [a, a])];
    assert After(s, run, false) == Epoch(0, [Copying(0), Outside], [a, a], [b, b], 0, [b, b], 0, []);
    Longer(s, run, CopyPixel(0));
    run := run + [CopyPixel(0)];
    assert After(s, run, false) == Epoch(0, [Copying(1), Outside], [a, a], [a, b], 0, [b, b], 0, []);
    Longer(s, run, CopyPixel(0));
    run := run + [CopyPixel(0)];
    assert After(s, run, false) == Epoch(0, [Copying(2), Outside], [a, a], [a, a], 0, [b, b], 0, []);
    Longer(s, run, Publish(0));
    run := run + [Publish(0)];
  }

  /** Half of its second frame is copied when the other core enters. */
  lemma HalfCopied<T>(a: T, b: T) returns (run: seq<Step<T>>)
    ensures var s := Epoch(0, [Holding, Outside], [a, a], [a, a], 1, [a, a], 0, []);
            && Possible(s, run, false)
            && After(s, run, false) == Epoch(1, [Copying(1), Holding], [b, b], [b, a], 1, [a, a], 0, [])
  {
    var s := Epoch(0, [Holding, Outside], [a, a], [a, a], 1, [a, a], 0, []);
    OneStep(s, Render(0, [b, b]));
    run := [Render(0, [b, b])];
    assert After(s, run, false) == Epoch(0, [Copying(0), Outside], [b, b], [a, a], 1, [a, a], 0, []);
    Longer(s, run, CopyPixel(0));
    run := run + [CopyPixel(0)];
    assert After(s, run, false) == Epoch(0, [Copying(1), Outside], [b, b], [b, a], 1, [a, a], 0, []);
    Longer(s, run, Lock(1));
    run := run + [Lock(1)];
  }

  /** It reads the slot as it is. */
  lemma TornRead<T>(a: T, b: T) returns (run: seq<Step<T>>)
    ensures var s := Epoch(1, [Copying(1), Holding], [b, b], [b, a], 1, [a, a], 0, []);
            && Possible(s, run, false)
            && After(s, run, false).log == [Delivery(0, 0, 0, 1, [b, a], [a, a])]
  {
    var s := Epoch(1, [Copying(1), Holding], [b, b], [b, a], 1, [a, a], 0, []);
    OneStep(s, TryAcquire(1, 0));
    run := [TryAcquire(1, 0)];
    assert After(s, run, false) == Epoch(1, [Copying(1), Reading(0, 0, [])], [b, b], [b, a], 1, [a, a], 0, []);
    Longer(s, run, ReadPixel(1));
    run := run + [ReadPixel(1)];
    assert [] + [b] == [b];
    assert After(s, run, false) == Epoch(1, [Copying(1), Reading(0, 1, [b])], [b, b], [b, a], 1, [a, a], 0, []);
    Longer(s, run, ReadPixel(1));
    run := run + [ReadPixel(1)];
    assert [b] + [a] == [b, a];
    assert After(s, run, false) == Epoch(1, [Copying(1), Reading(0, 2, [b, a])], [b, b], [b, a], 1, [a, a], 0, []);
    Longer(s, run, Release(1));
    run := run + [Release(1)];
  }

  lemma TornRun<T>(a: T, b: T) returns (run: seq<Step<T>>)
    ensures var s := Epoch(NOBODY, [Outside, Outside], [b, b], [b, b], 0, [b, b], 0, []);
            Possible(s, run, false) && After(s, run, false).log == [Delivery(0, 0, 0, 1, [b, a], [a, a])]
  {
    hide Apply, Enabled, Possible, After;
    var s := Epoch(NOBODY, [Outside, Outside], [b, b], [b, b], 0, [b, b], 0, []);
    var first := FirstFrame(a, b);
    var second := HalfCopied(a, b);
    RunsJoin(s, first, second);
    var third := TornRead(a, b);
    RunsJoin(s, first + second, third);
    run := first + second + third;
  }

  /** The lock is what makes this true. From a fresh epoch with two cores and a two-pixel frame, let
      a second core enter while the first is half way through its copy: the reader gets one new and
      one old pixel. */
  lemma WithoutExclusionFramesTear<T>(a: T, b: T)
    requires a != b
    ensures exists s: State<T>, run: seq<Step<T>> ::
              Start(s) && Possible(s, run, false) && After(s, run, false).log == [Delivery(0, 0, 0, 1, [b, a], [a, a])]
  {
    hide Possible, After;
    var run := TornRun(a, b);
    assert Start(Epoch(NOBODY, [Outside, Outside], [b, b], [b, b], 0, [b, b], 0, []));
  }
}
