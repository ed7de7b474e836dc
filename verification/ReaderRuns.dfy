/** One buffer, one producer and any number of readers, their calls interleaved in any order within
    an allocation epoch. What a reader is served is read off the order of the calls.  */
module ReaderRuns {
  import opened Arithmetic
  import opened DataBuffers

  datatype Step = Publish | Attach(r: nat) | Detach(r: nat) | TryAcquire(r: nat) | Release(r: nat)

  // ---- The trace ----

  function Publishes(run: seq<Step>): nat {
    if run == [] then 0
    else Publishes(run[..|run| - 1]) + if run[|run| - 1] == Publish then 1 else 0
  }

  /** The reader's last attach or detach is an attach. */
  predicate Attached(run: seq<Step>, r: nat) {
    if run == [] then false
    else
      var e := run[|run| - 1];
      e == Attach(r) || (e != Detach(r) && Attached(run[..|run| - 1], r))
  }

  /** A later attach makes the reader forget the release at position j. */
  predicate Forgotten(run: seq<Step>, r: nat, j: int) {
    exists k :: 0 <= k < |run| && j < k && run[k] == Attach(r)
  }

  /** The publish at p is news to the reader: it has not released since, or forgotten that it did. */
  predicate News(run: seq<Step>, r: nat, p: nat) {
    && p < |run| && run[p] == Publish
    && forall j :: 0 <= j < |run| && p < j && run[j] == Release(r) ==> Forgotten(run, r, j)
  }

  /** The reader is attached, and some publish is news to it. */
  ghost predicate Due(run: seq<Step>, r: nat) {
    Attached(run, r) && exists p :: News(run, r, p)
  }

  // ---- The cursor ----

  /** The publish count at the last release since the last attach, or 0. */
  function Cursor(run: seq<Step>, r: nat): nat {
    if run == [] then 0
    else
      var front, e := run[..|run| - 1], run[|run| - 1];
      if e == Attach(r) then 0 else if e == Release(r) && Attached(front, r) then Publishes(front) else Cursor(front, r)
  }

  lemma {:induction false} CursorBehind(run: seq<Step>, r: nat)
    ensures Cursor(run, r) <= Publishes(run)
  {
    if run != [] {
      CursorBehind(run[..|run| - 1], r);
    }
  }

  lemma {:induction false} PublishedSomewhere(run: seq<Step>)
    ensures Publishes(run) > 0 <==> exists p :: 0 <= p < |run| && run[p] == Publish
  {
    if run != [] {
      var front := run[..|run| - 1];
      PublishedSomewhere(front);
      if p :| 0 <= p < |front| && front[p] == Publish {
        assert run[p] == Publish;
      }
      if run[|run| - 1] != Publish {
        if p :| 0 <= p < |run| && run[p] == Publish {
          assert front[p] == Publish;
        }
      }
    }
  }

  lemma NewsAfterPublish(front: seq<Step>, r: nat)
    ensures News(front + [Publish], r, |front|)
  {
  }

  /** After an attach every publish of the epoch is news. */
  lemma NewsAfterAttach(front: seq<Step>, r: nat, p: nat)
    requires p < |front| && front[p] == Publish
    ensures News(front + [Attach(r)], r, p)
  {
    var run := front + [Attach(r)];
    forall j | 0 <= j < |run| && p < j && run[j] == Release(r) ensures Forgotten(run, r, j) {
      assert run[|front|] == Attach(r);
    }
  }

  lemma NoNewsAfterRelease(front: seq<Step>, r: nat, p: nat)
    ensures !News(front + [Release(r)], r, p)
  {
    var run := front + [Release(r)];
    assert run[|front|] == Release(r) && !Forgotten(run, r, |front|);
  }

  /** Any other step leaves the news as it is. */
  lemma SameNews(front: seq<Step>, r: nat, e: Step, p: nat)
    requires e != Publish && e != Attach(r) && e != Release(r)
    ensures News(front + [e], r, p) <==> News(front, r, p)
  {
    var run := front + [e];
    forall j | 0 <= j < |front| ensures Forgotten(run, r, j) <==> Forgotten(front, r, j) {
      if k :| 0 <= k < |front| && j < k && front[k] == Attach(r) {
        assert run[k] == Attach(r);
      }
      if k :| 0 <= k < |run| && j < k && run[k] == Attach(r) {
        assert front[k] == Attach(r);
      }
    }
    if News(run, r, p) {
      forall j | 0 <= j < |front| && p < j && front[j] == Release(r) ensures Forgotten(front, r, j) {
        assert run[j] == Release(r);
      }
    }
    if News(front, r, p) {
      forall j | 0 <= j < |run| && p < j && run[j] == Release(r) ensures Forgotten(run, r, j) {
        assert front[j] == Release(r);
      }
    }
  }

  /** The cursor lags exactly when some publish is news. */
  lemma {:induction false} CursorIsTrace(run: seq<Step>, r: nat)
    requires Attached(run, r)
    ensures Cursor(run, r) < Publishes(run) <==> exists p :: News(run, r, p)
  {
    var front, e := run[..|run| - 1], run[|run| - 1];
    assert run == front + [e];
    CursorBehind(front, r);
    if e == Publish {
      NewsAfterPublish(front, r);
    } else if e == Attach(r) {
      PublishedSomewhere(front);
      if p :| 0 <= p < |front| && front[p] == Publish {
        NewsAfterAttach(front, r, p);
      }
    } else if e == Release(r) {
      forall p ensures !News(run, r, p) {
        if p >= 0 {
          NoNewsAfterRelease(front, r, p);
        }
      }
    } else {
      CursorIsTrace(front, r);
      forall p: nat ensures News(run, r, p) <==> News(front, r, p) {
        SameNews(front, r, e, p);
      }
    }
  }

  /** In an epoch of at most 2^32 - 2 publishes the revision word is no sentinel once something is
      published, and the cursor test of an attached reader is the trace's answer. */
  lemma ServedIsDue(run: seq<Step>, r: nat)
    requires Attached(run, r) && Publishes(run) <= WORD - 2
    ensures Delivers(Publishes(run), Cursor(run, r)) <==> Due(run, r)
    ensures Publishes(run) > 0 ==> Stamp(Publishes(run)) != NONE && Stamp(Publishes(run)) != DEAD
  {
    CursorBehind(run, r);
    CursorIsTrace(run, r);
    DeliversWithinEpoch(Publishes(run), Cursor(run, r));
    StampIsSentinel(Publishes(run));
  }

  // ---- What the trace says ----

  /** No call of one reader changes what another is served. */
  lemma OthersUnmoved(run: seq<Step>, e: Step, r: nat)
    requires e != Publish && e.r != r
    ensures Due(run + [e], r) <==> Due(run, r)
  {
    assert (run + [e])[..|run|] == run;
    forall p: nat ensures News(run + [e], r, p) <==> News(run, r, p) {
      SameNews(run, r, e, p);
    }
  }

  /** A release consumes whatever has been published by then: a frame published between a reader's
      acquire and its release is not due to it afterwards. */
  lemma PublishDuringReadIsSkipped(run: seq<Step>, between: seq<Step>, r: nat)
    ensures !Due(run + [TryAcquire(r)] + between + [Publish] + [Release(r)], r)
  {
    forall p: nat ensures !News(run + [TryAcquire(r)] + between + [Publish] + [Release(r)], r, p) {
      NoNewsAfterRelease(run + [TryAcquire(r)] + between + [Publish], r, p);
    }
  }

  // ---- The objects ----

  predicate Within(run: seq<Step>, readers: nat) {
    forall i :: 0 <= i < |run| && run[i] != Publish ==> run[i].r < readers
  }

  /** The objects stand where the trace says. */
  ghost predicate Tracks<T(0)>(b: DataBuffer<T>, readers: seq<DataBufferReader<T>>, run: seq<Step>)
    reads b, readers
  {
    && b.Valid() && b.slot != null && !b.dead && b.publishes == Publishes(run)
    && forall r :: 0 <= r < |readers| ==>
         && readers[r].Valid()
         && readers[r].buf == (if Attached(run, r) then b else null)
         && (Attached(run, r) ==> readers[r].seen == Cursor(run, r))
  }

  /** Run the calls on one allocated buffer and detached readers. Every acquire answers with the
      slot exactly when the trace before it makes a frame due, and with nothing otherwise. */
  method Drive<T(0)>(b: DataBuffer<T>, readers: seq<DataBufferReader<T>>, run: seq<Step>) returns (served: seq<bool>)
    requires b.Valid() && b.slot != null && !b.dead && b.publishes == 0
    requires forall r :: 0 <= r < |readers| ==> readers[r].Valid() && readers[r].buf == null
    requires forall q, r :: 0 <= q < r < |readers| ==> readers[q] != readers[r]
    requires Within(run, |readers|) && Publishes(run) <= WORD - 2
    modifies b`published, b`publishes, readers
    ensures |served| == |run|
    ensures forall i :: 0 <= i < |run| && run[i].TryAcquire? ==> (served[i] <==> Due(run[..i], run[i].r))
  {
    hide Due, Attached, Publishes, Cursor, Tracks;
    served := [];
    NothingYet();
    assert Tracks(b, readers, []) by { TracksNothing(b, readers); }
    for i := 0 to |run|
      invariant Tracks(b, readers, run[..i]) && |served| == i
      invariant forall j :: 0 <= j < i && run[j].TryAcquire? ==> (served[j] <==> Due(run[..j], run[j].r))
    {
      Prefix(run, i);
      assert run[..i + 1] == run[..i] + [run[i]];
      var got := Call(b, readers, run[..i], run[i]);
      served := served + [got];
    }
  }

  lemma TracksNothing<T(0)>(b: DataBuffer<T>, readers: seq<DataBufferReader<T>>)
    requires b.Valid() && b.slot != null && !b.dead && b.publishes == 0
    requires forall r :: 0 <= r < |readers| ==> readers[r].Valid() && readers[r].buf == null
    ensures Tracks(b, readers, [])
  {
  }

  /** One call on the objects, with the answer of an acquire. */
  method Call<T(0)>(b: DataBuffer<T>, readers: seq<DataBufferReader<T>>, ghost before: seq<Step>, e: Step) returns (got: bool)
    requires Tracks(b, readers, before) && Publishes(before) <= WORD - 2 && (e != Publish ==> e.r < |readers|)
    requires forall q, r :: 0 <= q < r < |readers| ==> readers[q] != readers[r]
    modifies b`published, b`publishes, readers
    ensures Tracks(b, readers, before + [e])
    ensures e.TryAcquire? ==> (got <==> Due(before, e.r))
  {
    hide Due, Attached, Publishes, Cursor, Delivers, Stamp;
    StepTracked(before, e);
    got := false;
    match e
    case Publish =>
      b.Publish();
    case Attach(r) =>
      readers[r].Attach(b);
    case Detach(r) =>
      readers[r].Detach();
    case TryAcquire(r) =>
      var p := readers[r].TryAcquireRead();
      Answer(before, r);
      got := p != null;
    case Release(r) =>
      readers[r].ReleaseRead();
  }

  lemma NothingYet()
    ensures Publishes([]) == 0 && forall r: nat :: !Attached([], r)
  {
  }

  lemma Answer(run: seq<Step>, r: nat)
    requires Publishes(run) <= WORD - 2
    ensures Due(run, r) <==> Attached(run, r) && Delivers(Publishes(run), Cursor(run, r))
  {
    if Attached(run, r) {
      ServedIsDue(run, r);
    }
  }

  lemma {:induction false} Prefix(run: seq<Step>, i: nat)
    requires i <= |run|
    ensures Publishes(run[..i]) <= Publishes(run)
    decreases |run| - i
  {
    if i < |run| {
      Prefix(run, i + 1);
      assert run[..i + 1][..i] == run[..i];
    } else {
      assert run[..i] == run;
    }
  }

  /** How one step moves the trace functions. */
  lemma StepTracked(front: seq<Step>, e: Step)
    ensures Publishes(front + [e]) == Publishes(front) + if e == Publish then 1 else 0
    ensures forall r: nat :: Attached(front + [e], r) <==> e == Attach(r) || (e != Detach(r) && Attached(front, r))
    ensures forall r: nat :: Cursor(front + [e], r) ==
                             if e == Attach(r) then 0
                             else if e == Release(r) && Attached(front, r) then Publishes(front)
                             else Cursor(front, r)
  {
    assert (front + [e])[..|front|] == front;
  }
}
