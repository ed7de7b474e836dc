/** What the station's state and commands tell of the events so far, over whole runs: the user's
    choices, whether the radio is in use, when the last attempt began, and when a probe is due.  */
module WifiHistories {
  import opened Forests
  import opened Arithmetic
  import opened WifiStations

  // ---- The user's choices ----

  /** The last setting of the switch, or the one at the start; and so on. */
  function LastSwitch(first: bool, es: seq<Event>): bool {
    if es == [] then first
    else match es[|es| - 1] case SetEnabled(on, _) => on case _ => LastSwitch(first, es[..|es| - 1])
  }

  function LastSsid(first: bool, es: seq<Event>): bool {
    if es == [] then first
    else match es[|es| - 1] case SetCredentials(nonEmpty, _) => nonEmpty case _ => LastSsid(first, es[..|es| - 1])
  }

  /** A power outside 0..21 dBm counts as none. */
  function LastPref(first: real, es: seq<Event>): real {
    if es == [] then first
    else match es[|es| - 1]
      case SetPref(dbm, _) => if 0.0 <= dbm <= 21.0 then dbm else 0.0
      case _ => LastPref(first, es[..|es| - 1])
  }

  lemma ChoiceStep(s: State, e: Event)
    requires InRange(s)
    ensures var t := Step(s, e).0;
            && t.enabled == (if e.SetEnabled? then e.on else s.enabled)
            && t.hasSsid == (if e.SetCredentials? then e.nonEmpty else s.hasSsid)
            && t.pref == (if e.SetPref? then if 0.0 <= e.dbm <= 21.0 then e.dbm else 0.0 else s.pref)
  {
  }

  /** They are what the state holds. */
  lemma {:induction false} ChoicesKept(s: State, es: seq<Event>)
    requires InRange(s)
    ensures var t := Run(s, es).0;
            && t.enabled == LastSwitch(s.enabled, es)
            && t.hasSsid == LastSsid(s.hasSsid, es)
            && t.pref == LastPref(s.pref, es)
  {
    hide Step;
    if es != [] {
      ChoicesKept(s, es[..|es| - 1]);
      ChoiceStep(Run(s, es[..|es| - 1]).0, es[|es| - 1]);
    }
  }

  /** An edit of the power takes effect at once on a connected radio, and otherwise tells it nothing. */
  lemma PrefAppliedLive(s: State, dbm: real, up: bool, before: real)
    requires InRange(s)
    ensures Power(before, Step(s, SetPref(dbm, up)).1) == if up && 0.0 < dbm <= 21.0 then dbm else before
  {
  }

  // ---- Is the radio in use? ----

  /** An association was begun after the last disconnect. */
  function InUse(cmds: seq<Command>): bool {
    if cmds == [] then false
    else match cmds[|cmds| - 1]
      case Begin => true
      case Disconnect => false
      case SetTx(_) => InUse(cmds[..|cmds| - 1])
  }

  lemma {:induction false} InUseConcat(a: seq<Command>, b: seq<Command>)
    ensures InUse(a + b) == if Begin in b || Disconnect in b then InUse(b) else InUse(a)
  {
    if b == [] {
      assert a + b == a;
    } else {
      assert (a + b)[..|a + b| - 1] == a + b[..|b| - 1];
      assert b == b[..|b| - 1] + [b[|b| - 1]];
      InUseConcat(a, b[..|b| - 1]);
    }
  }

  /** What an event does to the radio's use. */
  lemma StepInUse(s: State, e: Event)
    requires InRange(s) && InRange(Step(s, e).0)
    ensures var cmds := Step(s, e).1;
            && (Attempts(s, e) ==> Begin in cmds && InUse(cmds))
            && (e.SetEnabled? && !e.on ==> cmds == [Disconnect])
            && (!Attempts(s, e) && !(e.SetEnabled? && !e.on) ==> Begin !in cmds && Disconnect !in cmds)
  {
    hide Step;
    AttemptPower(s, e);
    OnlySwitchedOff(s, e);
    if Attempts(s, e) {
      BeginsLast(ProbeCommands(s, e), Forced(Step(s, e).0));
    }
  }

  lemma OnlySwitchedOff(s: State, e: Event)
    requires InRange(s)
    ensures if e.SetEnabled? && !e.on then Step(s, e).1 == [Disconnect] else Disconnect !in Step(s, e).1
  {
  }

  lemma BeginsLast(a: seq<Command>, forced: real)
    ensures var cmds := a + ([Begin] + if forced > 0.0 then [SetTx(forced)] else []); Begin in cmds && InUse(cmds)
  {
    var tail := [Begin] + if forced > 0.0 then [SetTx(forced)] else [];
    assert Begin == tail[0];
    if |tail| == 2 {
      assert tail[..1] == [Begin];
    }
    InUseConcat(a, tail);
  }

  /** An association was begun since the last time the station was switched off. */
  ghost predicate BegunSinceOff(s: State, es: seq<Event>, before: bool)
    requires InRange(s)
  {
    if es == [] then before
    else
      var front, e := es[..|es| - 1], es[|es| - 1];
      if e.SetEnabled? && !e.on then false else Attempts(Run(s, front).0, e) || BegunSinceOff(s, front, before)
  }

  lemma {:induction false} UseFollows(s: State, first: seq<Command>, es: seq<Event>)
    requires InRange(s)
    ensures InUse(first + Run(s, es).1) == BegunSinceOff(s, es, InUse(first))
  {
    if es == [] {
      assert first + Run(s, es).1 == first;
    } else {
      var front, e := es[..|es| - 1], es[|es| - 1];
      UseFollows(s, first, front);
      var (t, cmds) := Run(s, front);
      RungMoves(t, e);
      StepInUse(t, e);
      Assoc(first, cmds, Step(t, e).1);
      InUseConcat(first + cmds, Step(t, e).1);
    }
  }

  /** In every run from boot: the radio is in use exactly when an attempt was made since the station
      was last switched off; a station switched off is not connecting and has its radio out of use;
      a connecting one has it in use. */
  lemma {:induction false} OffIsOff(hasSsid: bool, enabled: bool, pref: real, now: Clock, es: seq<Event>)
    ensures var (s, first) := Setup(hasSsid, enabled, pref, now);
            var (t, cmds) := Run(s, es);
            && (t.connecting ==> t.enabled && InUse(first + cmds))
            && (!t.enabled ==> !InUse(first + cmds))
            && (InUse(first + cmds) <==> BegunSinceOff(s, es, hasSsid && enabled))
  {
    var (s, first) := Setup(hasSsid, enabled, pref, now);
    StartInUse(hasSsid, enabled, pref, now);
    UseFollows(s, first, es);
    if es == [] {
      assert first + Run(s, es).1 == first;
    } else {
      var front, e := es[..|es| - 1], es[|es| - 1];
      OffIsOff(hasSsid, enabled, pref, now, front);
      UseFollows(s, first, front);
      var t := Run(s, front).0;
      OffStep(t, e);
    }
  }

  lemma StartInUse(hasSsid: bool, enabled: bool, pref: real, now: Clock)
    ensures InUse(Setup(hasSsid, enabled, pref, now).1) == (hasSsid && enabled)
    ensures Setup(hasSsid, enabled, pref, now).0.connecting == (hasSsid && enabled)
  {
    var cmds := Setup(hasSsid, enabled, pref, now).1;
    if |cmds| == 2 {
      assert cmds[..1] == [Begin];
    }
  }

  /** Nothing is begun while switched off, and nothing connects without having been begun. */
  lemma OffStep(s: State, e: Event)
    requires InRange(s) && (s.connecting ==> s.enabled)
    ensures var t := Step(s, e).0;
            && (Attempts(s, e) ==> !(e.SetEnabled? && !e.on))
            && (t.connecting ==> t.enabled && !(e.SetEnabled? && !e.on) && (s.connecting || Attempts(s, e)))
            && (!t.enabled ==> (e.SetEnabled? && !e.on) || (!s.enabled && !Attempts(s, e)))
  {
  }

  // ---- What the status tells ----

  /** The displayed status against the state. */
  predicate StatusTells(s: State) {
    && s.status != Boot
    && (s.status == Connecting ==> s.connecting)
    && (s.connecting ==> s.status == Connecting || s.status == NoCredentials)
    && (s.status == Disabled ==> !s.enabled)
    && (!s.enabled ==> s.status == Disabled || s.status == NoCredentials)
  }

  lemma {:induction false} StatusAlwaysTells(hasSsid: bool, enabled: bool, pref: real, now: Clock, es: seq<Event>)
    ensures StatusTells(Run(Setup(hasSsid, enabled, pref, now).0, es).0)
  {
    hide Step, StatusTells;
    if es == [] {
      StatusAtBoot(hasSsid, enabled, pref, now);
    } else {
      StatusAlwaysTells(hasSsid, enabled, pref, now, es[..|es| - 1]);
      OffIsOff(hasSsid, enabled, pref, now, es[..|es| - 1]);
      StatusStep(Run(Setup(hasSsid, enabled, pref, now).0, es[..|es| - 1]).0, es[|es| - 1]);
    }
  }

  lemma StatusAtBoot(hasSsid: bool, enabled: bool, pref: real, now: Clock)
    ensures StatusTells(Setup(hasSsid, enabled, pref, now).0)
  {
  }

  lemma StatusStep(s: State, e: Event)
    requires InRange(s) && StatusTells(s) && (s.connecting ==> s.enabled)
    ensures StatusTells(Step(s, e).0)
  {
  }

  // ---- True time ----

  /** An event at true times: that of the probe, of the reading after it, and of an attempt. */
  datatype Instant = Instant(e: Event, probe: nat, at: nat, begin: nat)

  /** The event's clock readings are those of its times. */
  predicate OnClock(x: Instant) {
    && x.probe <= x.at <= x.begin
    && match x.e
       case Tick(r) => r.probeNow == x.probe % WORD && r.now == x.at % WORD && r.begin == x.begin % WORD
       case SetEnabled(_, now) => now == x.begin % WORD
       case SetCredentials(_, now) => now == x.begin % WORD
       case SetPref(_, _) => true
  }

  /** A run of events one after another, from a true time on. */
  ghost predicate Timed(start: nat, xs: seq<Instant>) {
    && (forall i :: 0 <= i < |xs| ==> OnClock(xs[i]) && start <= xs[i].probe)
    && (forall i, j :: 0 <= i < j < |xs| ==> xs[i].begin <= xs[j].probe)
  }

  function Events(xs: seq<Instant>): (es: seq<Event>)
    ensures |es| == |xs| && forall i :: 0 <= i < |xs| ==> es[i] == xs[i].e
  {
    seq(|xs|, i requires 0 <= i < |xs| => xs[i].e)
  }

  lemma EventsFront(s: State, xs: seq<Instant>)
    requires InRange(s) && xs != []
    ensures var front, x := xs[..|xs| - 1], xs[|xs| - 1];
            && InRange(Run(s, Events(front)).0)
            && Run(s, Events(xs)).0 == Step(Run(s, Events(front)).0, x.e).0
  {
    var es := Events(xs);
    assert es[..|es| - 1] == Events(xs[..|xs| - 1]);
  }

  lemma TimedFront(start: nat, xs: seq<Instant>)
    requires Timed(start, xs) && xs != []
    ensures Timed(start, xs[..|xs| - 1]) && OnClock(xs[|xs| - 1])
  {
  }

  // ---- The last attempt ----

  /** When the last attempt began, if there was one. */
  ghost function LastBegun(s: State, first: Option<nat>, xs: seq<Instant>): Option<nat>
    requires InRange(s)
  {
    if xs == [] then first
    else
      var front, x := xs[..|xs| - 1], xs[|xs| - 1];
      if Attempts(Run(s, Events(front)).0, x.e) then Some(x.begin) else LastBegun(s, first, front)
  }

  /** The state's two attempt times are the clock readings of that moment. */
  ghost predicate Stamped(s: State, begun: Option<nat>) {
    s.connectStart == s.lastRetry && s.lastRetry == match begun case None => 0 case Some(b) => b % WORD
  }

  lemma {:induction false} AttemptStamped(s: State, first: Option<nat>, start: nat, xs: seq<Instant>)
    requires InRange(s) && Stamped(s, first) && Timed(start, xs) && (first.Some? ==> first.value <= start)
    ensures var begun := LastBegun(s, first, xs);
            && Stamped(Run(s, Events(xs)).0, begun)
            && (begun.Some? ==> begun.value <= if xs == [] then start else xs[|xs| - 1].begin)
  {
    hide Attempts, Step;
    if xs == [] {
      assert Events(xs) == [];
    } else {
      var front, x := xs[..|xs| - 1], xs[|xs| - 1];
      TimedFront(start, xs);
      AttemptStamped(s, first, start, front);
      EventsFront(s, xs);
      StampStep(Run(s, Events(front)).0, x);
    }
  }

  lemma StampStep(s: State, x: Instant)
    requires InRange(s) && OnClock(x)
    ensures var t := Step(s, x.e).0;
            if Attempts(s, x.e) then t.connectStart == t.lastRetry == x.begin % WORD
            else t.connectStart == s.connectStart && t.lastRetry == s.lastRetry
  {
  }

  /** In every run from boot, an attempt that a tick starts comes more than 15 s after the one before,
      if that is still under way, and at least 30 s after it otherwise. */
  lemma AttemptsApart(hasSsid: bool, enabled: bool, pref: real, start: nat, xs: seq<Instant>, x: Instant)
    requires Timed(start, xs + [x]) && x.e.Tick?
    requires var s := Setup(hasSsid, enabled, pref, start % WORD).0; Attempts(Run(s, Events(xs)).0, x.e)
    ensures var s := Setup(hasSsid, enabled, pref, start % WORD).0;
            var begun := LastBegun(s, if hasSsid && enabled then Some(start) else None, xs);
            begun.Some? ==>
              if Run(s, Events(xs)).0.connecting then x.at > begun.value + 15000 else x.at >= begun.value + 30000
  {
    hide Run, Attempts, Setup;
    var s := Setup(hasSsid, enabled, pref, start % WORD).0;
    var first := if hasSsid && enabled then Some(start) else None;
    StampedAtBoot(hasSsid, enabled, pref, start);
    TimedFront(start, xs + [x]);
    assert (xs + [x])[..|xs|] == xs;
    AttemptStamped(s, first, start, xs);
    AfterAll(start, xs, x);
    var begun := LastBegun(s, first, xs);
    if begun.Some? {
      ElapsedModulo(x.at, begun.value);
      AttemptWaits(Run(s, Events(xs)).0, x, begun.value);
    }
  }

  lemma StampedAtBoot(hasSsid: bool, enabled: bool, pref: real, start: nat)
    ensures Stamped(Setup(hasSsid, enabled, pref, start % WORD).0, if hasSsid && enabled then Some(start) else None)
  {
  }

  lemma AttemptWaits(s: State, x: Instant, begun: nat)
    requires InRange(s) && OnClock(x) && x.e.Tick? && Attempts(s, x.e) && Stamped(s, Some(begun)) && begun <= x.at
    requires Elapsed(x.at % WORD, begun % WORD) == (x.at - begun) % WORD
    ensures if s.connecting then x.at > begun + 15000 else x.at >= begun + 30000
  {
  }

  lemma AfterAll(start: nat, xs: seq<Instant>, x: Instant)
    requires Timed(start, xs + [x])
    ensures (if xs == [] then start else xs[|xs| - 1].begin) <= x.probe <= x.at && OnClock(x)
  {
    var all := xs + [x];
    assert all[|xs|] == x;
    if xs != [] {
      assert all[|xs| - 1] == xs[|xs| - 1];
    }
  }

  // ---- The next probe ----

  /** The event ends a probe because the link is down. */
  predicate FailsProbe(s: State, e: Event)
    requires InRange(s)
  {
    e.Tick? && Probes(s, e.r) && s.probeStarted != 0 && !e.r.inProbe
  }

  /** The event starts a probe. */
  predicate StartsProbe(s: State, e: Event)
    requires InRange(s)
  {
    e.Tick? && Probes(s, e.r) && s.probeStarted == 0 && Step(s, e).0.probeStarted != 0
  }

  /** The event ends a connection attempt at reduced power with success. */
  predicate ConnectsReduced(s: State, e: Event)
    requires InRange(s)
  {
    e.Tick? && s.connecting && e.r.after && s.idx >= 0
  }

  /** When a probe was scheduled last: at a failed one, or at a connection at reduced power. An edit
      of the user's power and a successful probe leave none scheduled. */
  ghost function LastScheduled(s: State, first: Option<nat>, xs: seq<Instant>): Option<nat>
    requires InRange(s)
  {
    if xs == [] then first
    else
      var front, x := xs[..|xs| - 1], xs[|xs| - 1];
      var t := Run(s, Events(front)).0;
      if FailsProbe(t, x.e) then Some(x.probe)
      else if ConnectsReduced(t, x.e) then Some(x.at)
      else if x.e.SetPref? || Promotes(t, x.e) then None
      else LastScheduled(s, first, front)
  }

  /** The reading an hour after a true time; 0 stands for none. */
  ghost predicate DueAnHourAfter(nextProbe: Clock, scheduled: Option<nat>) {
    nextProbe == match scheduled case None => 0 case Some(t) => (t + 3600000) % WORD
  }

  lemma {:induction false} ProbeScheduled(s: State, first: Option<nat>, start: nat, xs: seq<Instant>)
    requires InRange(s) && DueAnHourAfter(s.nextProbe, first) && Timed(start, xs) && (first.Some? ==> first.value <= start)
    ensures var scheduled := LastScheduled(s, first, xs);
            && DueAnHourAfter(Run(s, Events(xs)).0.nextProbe, scheduled)
            && (scheduled.Some? ==> scheduled.value <= if xs == [] then start else xs[|xs| - 1].begin)
  {
    hide Step, FailsProbe, ConnectsReduced, Promotes;
    if xs == [] {
      assert Events(xs) == [];
    } else {
      var front, x := xs[..|xs| - 1], xs[|xs| - 1];
      TimedFront(start, xs);
      ProbeScheduled(s, first, start, front);
      EventsFront(s, xs);
      ScheduleStep(Run(s, Events(front)).0, x);
    }
  }

  lemma ScheduleStep(s: State, x: Instant)
    requires InRange(s) && OnClock(x)
    ensures Step(s, x.e).0.nextProbe ==
            if FailsProbe(s, x.e) then (x.probe + 3600000) % WORD
            else if ConnectsReduced(s, x.e) then (x.at + 3600000) % WORD
            else if x.e.SetPref? || Promotes(s, x.e) then 0
            else s.nextProbe
  {
    WrapAdd(x.probe, 3600000);
    WrapAdd(x.at, 3600000);
  }

  lemma WrapAdd(n: nat, k: nat)
    ensures (n % WORD + k) % WORD == (n + k) % WORD
  {
    var q := n / WORD;
    assert n + k == WORD * q + (n % WORD + k);
  }

  /** In every run from boot a probe that starts was scheduled, and an hour ago or more, unless the
      clock wraps in the hour after that. */
  lemma ProbesAnHourAfter(hasSsid: bool, enabled: bool, pref: real, start: nat, xs: seq<Instant>, x: Instant)
    requires Timed(start, xs + [x])
    requires var s := Setup(hasSsid, enabled, pref, start % WORD).0; StartsProbe(Run(s, Events(xs)).0, x.e)
    ensures var s := Setup(hasSsid, enabled, pref, start % WORD).0;
            var scheduled := LastScheduled(s, None, xs);
            scheduled.Some? && (x.probe >= scheduled.value + 3600000 || scheduled.value % WORD + 3600000 > WORD)
  {
    var s := Setup(hasSsid, enabled, pref, start % WORD).0;
    StartDue(s, None, start, xs, x);
  }

  lemma StartDue(s: State, first: Option<nat>, start: nat, xs: seq<Instant>, x: Instant)
    requires InRange(s) && DueAnHourAfter(s.nextProbe, first)
    requires Timed(start, xs + [x]) && (first.Some? ==> first.value <= start)
    requires StartsProbe(Run(s, Events(xs)).0, x.e)
    ensures var scheduled := LastScheduled(s, first, xs);
            scheduled.Some? && (x.probe >= scheduled.value + 3600000 || scheduled.value % WORD + 3600000 > WORD)
  {
    hide Run, LastScheduled;
    TimedFront(start, xs + [x]);
    assert (xs + [x])[..|xs|] == xs;
    ProbeScheduled(s, first, start, xs);
    AfterAll(start, xs, x);
    var scheduled := LastScheduled(s, first, xs);
    StartIsDue(Run(s, Events(xs)).0, x);
    if scheduled.Some? {
      WrapAdd(scheduled.value, 3600000);
      ProbeWaitsAnHour(scheduled.value);
    }
  }

  lemma StartIsDue(s: State, x: Instant)
    requires InRange(s) && OnClock(x) && StartsProbe(s, x.e)
    ensures ProbeDue(s.nextProbe, x.probe % WORD)
  {
  }

  /** A failed probe restores the rung's power, and the next probe of any run that follows starts no
      sooner than an hour later, unless a clock reading at which one is scheduled lies within the
      hour before a wrap. */
  lemma NextProbeAfterFailure(s: State, fail: Instant, xs: seq<Instant>, x: Instant)
    requires InRange(s) && OnClock(fail) && FailsProbe(s, fail.e) && Timed(fail.begin, xs + [x])
    requires InRange(Step(s, fail.e).0) && StartsProbe(Run(Step(s, fail.e).0, Events(xs)).0, x.e)
    requires forall y :: y in [fail] + xs ==> y.probe % WORD + 3600000 <= WORD && y.at % WORD + 3600000 <= WORD
    ensures ProbeCommands(s, fail.e) == [SetTx(STEPS[s.idx])]
    ensures x.probe >= fail.probe + 3600000
  {
    hide Run, LastScheduled, StartsProbe;
    var t := Step(s, fail.e).0;
    ScheduleStep(s, fail);
    TimedFront(fail.begin, xs + [x]);
    assert (xs + [x])[..|xs|] == xs;
    StartDue(t, Some(fail.probe), fail.begin, xs, x);
    ScheduledBetween(t, fail, xs);
  }

  lemma {:induction false} ScheduledBetween(s: State, fail: Instant, xs: seq<Instant>)
    requires InRange(s) && Timed(fail.begin, xs) && OnClock(fail)
    requires forall y :: y in [fail] + xs ==> y.probe % WORD + 3600000 <= WORD && y.at % WORD + 3600000 <= WORD
    ensures var t := LastScheduled(s, Some(fail.probe), xs);
            t.Some? ==> t.value >= fail.probe && t.value % WORD + 3600000 <= WORD
  {
    hide Run, FailsProbe, ConnectsReduced, Promotes;
    assert fail in [fail] + xs;
    if xs != [] {
      var front, x := xs[..|xs| - 1], xs[|xs| - 1];
      TimedFront(fail.begin, xs);
      assert x in [fail] + xs && fail.begin <= x.probe;
      ScheduledBetween(s, fail, front);
    }
  }
}
