/** The WiFi station: connecting, stepping the transmit power down on timeouts, and probing whether
    full power works again. The radio's answers and the clock are inputs of every tick.  */
module WifiStations {
  import opened Arithmetic

  // ---- The clock: 32-bit milliseconds ----

  type Clock = n: nat | n < WORD

  function Later(now: Clock, ms: nat): Clock {
    (now + ms) % WORD
  }

  const TIMEOUT: nat := 15000
  const RETRY: nat := 30000
  const PROBE_INTERVAL: nat := 3600000
  const PROBE_WATCH: nat := 30000

  /** Reduced transmit powers in dBm, tried in order. */
  const STEPS: seq<real> := [17.0, 15.0, 13.0, 11.0, 8.5]
  const DEFAULT_POWER: real := 19.5
  const MAX_PREF: real := 21.0

  // ---- State and inputs ----

  datatype Status = Boot | NoCredentials | Connecting | Connected | Failed | Disabled

  /** pref is the user's power, 0 for automatic; idx the rung of STEPS in use, -1 for full power;
      nextProbe and probeStarted are 0 when no probe is due or running. */
  datatype State = State(hasSsid: bool, enabled: bool, pref: real, connecting: bool, idx: int,
                         connectStart: Clock, lastRetry: Clock, nextProbe: Clock, probeStarted: Clock, status: Status)

  /** What the module tells the radio. Begin starts an association and resets the power. */
  datatype Command = Begin | SetTx(dbm: real) | Disconnect

  /** One second tick: is the link up when the tick starts, inside the probe, and after it; and the
      clock at the probe, after it, and when an attempt starts. */
  datatype Reading = Reading(guard: bool, inProbe: bool, after: bool, probeNow: Clock, now: Clock, begin: Clock)

  datatype Event =
    | Tick(r: Reading)
    | SetEnabled(on: bool, now: Clock)
    | SetCredentials(nonEmpty: bool, now: Clock)
    | SetPref(dbm: real, up: bool)

  predicate InRange(s: State) {
    -1 <= s.idx < |STEPS|
  }

  /** The reduced power in use, 0 at full power. */
  function Reduced(s: State): real
    requires InRange(s)
  {
    if s.idx < 0 then 0.0 else STEPS[s.idx]
  }

  /** The power an attempt forces: the user's, else the rung's, else none (0). */
  function Forced(s: State): real
    requires InRange(s)
  {
    if s.pref > 0.0 then s.pref else Reduced(s)
  }

  // ---- Steps ----

  function Attempt(s: State, now: Clock): (State, seq<Command>)
    requires InRange(s)
  {
    if !s.hasSsid then (s.(status := NoCredentials), [])
    else
      (s.(connecting := true, connectStart := now, lastRetry := now, status := Connecting),
       [Begin] + if Forced(s) > 0.0 then [SetTx(Forced(s))] else [])
  }

  /** A probe is due by the raw comparison of the code. */
  predicate ProbeDue(nextProbe: Clock, now: Clock) {
    nextProbe != 0 && now >= nextProbe
  }

  /** The probe part of a tick. */
  function Probe(s: State, up: bool, now: Clock): (State, seq<Command>)
    requires InRange(s)
  {
    if s.probeStarted == 0 then
      if !ProbeDue(s.nextProbe, now) then (s, [])
      else (s.(probeStarted := now), [SetTx(DEFAULT_POWER)])
    else if !up then (s.(probeStarted := 0, nextProbe := Later(now, PROBE_INTERVAL)), [SetTx(Reduced(s))])
    else if Elapsed(now, s.probeStarted) >= PROBE_WATCH then (s.(idx := -1, probeStarted := 0, nextProbe := 0), [])
    else (s, [])
  }

  /** The connection part of a tick. */
  function Watch(s: State, r: Reading): (State, seq<Command>)
    requires InRange(s)
  {
    if s.connecting then
      if r.after then
        (s.(connecting := false, status := Connected,
            nextProbe := if Reduced(s) > 0.0 then Later(r.now, PROBE_INTERVAL) else s.nextProbe), [])
      else if Elapsed(r.now, s.connectStart) > TIMEOUT then
        if s.idx + 1 < |STEPS| then Attempt(s.(idx := s.idx + 1), r.begin)
        else (s.(connecting := false, status := Failed), [])
      else (s, [])
    else if !s.enabled || !s.hasSsid || r.after then (s, [])
    else if Elapsed(r.now, s.lastRetry) >= RETRY then Attempt(s, r.begin)
    else (s, [])
  }

  predicate Probes(s: State, r: Reading)
    requires InRange(s)
  {
    !s.connecting && Reduced(s) > 0.0 && r.guard
  }

  function AfterProbe(s: State, r: Reading): (State, seq<Command>)
    requires InRange(s)
  {
    if Probes(s, r) then Probe(s, r.inProbe, r.probeNow) else (s, [])
  }

  function Step(s: State, e: Event): (State, seq<Command>)
    requires InRange(s)
  {
    match e
    case Tick(r) =>
      var (p, before) := AfterProbe(s, r);
      var (t, rest) := Watch(p, r);
      (t, before + rest)
    case SetEnabled(on, now) =>
      if on then Attempt(s.(enabled := true), now)
      else (s.(enabled := false, connecting := false, status := Disabled), [Disconnect])
    case SetCredentials(nonEmpty, now) =>
      var t := s.(hasSsid := nonEmpty);
      if t.enabled then Attempt(t, now) else (t, [])
    case SetPref(dbm, up) =>
      var pref := if dbm < 0.0 || dbm > MAX_PREF then 0.0 else dbm;
      (s.(pref := pref, idx := -1, nextProbe := 0, probeStarted := 0),
       if up && pref > 0.0 then [SetTx(pref)] else [])
  }

  function Setup(hasSsid: bool, enabled: bool, pref: real, now: Clock): (r: (State, seq<Command>))
    ensures InRange(r.0)
  {
    var s := State(hasSsid, enabled, if pref < 0.0 || pref > MAX_PREF then 0.0 else pref, false, -1, 0, 0, 0, 0, Boot);
    if hasSsid && enabled then Attempt(s, now)
    else (s.(status := if hasSsid then Disabled else NoCredentials), [])
  }

  // ---- The module ----

  class WifiSta {
    var hasSsid: bool
    var enabled: bool
    var pref: real
    var connecting: bool
    var idx: int
    var connectStart: Clock
    var lastRetry: Clock
    var nextProbe: Clock
    var probeStarted: Clock
    var status: Status

    ghost function Now(): State
      reads this
    {
      State(hasSsid, enabled, pref, connecting, idx, connectStart, lastRetry, nextProbe, probeStarted, status)
    }

    constructor (creds: bool, on: bool, power: real, now: Clock)
      ensures InRange(Now()) && Now() == Setup(creds, on, power, now).0
    {
      hasSsid, enabled := creds, on;
      pref := if power < 0.0 || power > MAX_PREF then 0.0 else power;
      connecting, idx, connectStart, lastRetry, nextProbe, probeStarted, status := false, -1, 0, 0, 0, 0, Boot;
      new;
      if hasSsid && enabled {
        var cmds := StartConnect(now);
      } else {
        status := if hasSsid then Disabled else NoCredentials;
      }
    }

    method StartConnect(now: Clock) returns (cmds: seq<Command>)
      requires InRange(Now())
      modifies this
      ensures Now() == Attempt(old(Now()), now).0 && cmds == Attempt(old(Now()), now).1
    {
      if !hasSsid {
        status := NoCredentials;
        return [];
      }
      var forced := if pref > 0.0 then pref else if idx < 0 then 0.0 else STEPS[idx];
      cmds := [Begin];
      if forced > 0.0 {
        cmds := cmds + [SetTx(forced)];
      }
      connecting := true;
      connectStart := now;
      lastRetry := connectStart;
      status := Connecting;
    }

    method MaybeRunPromotionProbe(up: bool, now: Clock) returns (cmds: seq<Command>)
      requires InRange(Now())
      modifies this
      ensures (Now(), cmds) == Probe(old(Now()), up, now)
    {
      cmds := [];
      if probeStarted == 0 {
        if nextProbe == 0 || now < nextProbe {
          return;
        }
        cmds := [SetTx(DEFAULT_POWER)];
        probeStarted := now;
        return;
      }
      if !up {
        cmds := [SetTx(if idx < 0 then 0.0 else STEPS[idx])];
        probeStarted := 0;
        nextProbe := Later(now, PROBE_INTERVAL);
        return;
      }
      if Elapsed(now, probeStarted) >= PROBE_WATCH {
        idx := -1;
        probeStarted := 0;
        nextProbe := 0;
      }
    }

    method Loop1s(r: Reading) returns (cmds: seq<Command>)
      requires InRange(Now())
      modifies this
      ensures InRange(Now()) && (Now(), cmds) == Step(old(Now()), Tick(r))
    {
      cmds := [];
      if !connecting && (if idx < 0 then 0.0 else STEPS[idx]) > 0.0 && r.guard {
        cmds := MaybeRunPromotionProbe(r.inProbe, r.probeNow);
      }
      var more: seq<Command> := [];
      if connecting {
        if r.after {
          status := Connected;
          connecting := false;
          if (if idx < 0 then 0.0 else STEPS[idx]) > 0.0 {
            nextProbe := Later(r.now, PROBE_INTERVAL);
          }
        } else if Elapsed(r.now, connectStart) > TIMEOUT {
          if idx + 1 < |STEPS| {
            idx := idx + 1;
            more := StartConnect(r.begin);
          } else {
            status := Failed;
            connecting := false;
          }
        }
      } else if !enabled || !hasSsid || r.after {
      } else if Elapsed(r.now, lastRetry) >= RETRY {
        more := StartConnect(r.begin);
      }
      cmds := cmds + more;
    }

    /** A control was edited; the new value is already stored. */
    method OnUpdate(e: Event) returns (cmds: seq<Command>)
      requires InRange(Now()) && !e.Tick?
      modifies this
      ensures InRange(Now()) && (Now(), cmds) == Step(old(Now()), e)
    {
      match e
      case SetEnabled(on, now) =>
        enabled := on;
        if enabled {
          cmds := StartConnect(now);
        } else {
          cmds := [Disconnect];
          connecting := false;
          status := Disabled;
        }
      case SetCredentials(nonEmpty, now) =>
        hasSsid := nonEmpty;
        if enabled {
          cmds := StartConnect(now);
        } else {
          cmds := [];
        }
      case SetPref(dbm, up) =>
        pref := dbm;
        if pref < 0.0 || pref > MAX_PREF {
          pref := 0.0;
        }
        idx := -1;
        nextProbe := 0;
        probeStarted := 0;
        cmds := if up && pref > 0.0 then [SetTx(pref)] else [];
    }
  }

  // ---- The staircase ----

  /** The tick declares the promotion a success. */
  predicate Promotes(s: State, e: Event)
    requires InRange(s)
  {
    e.Tick? && Probes(s, e.r) && s.probeStarted != 0 && e.r.inProbe && Elapsed(e.r.probeNow, s.probeStarted) >= PROBE_WATCH
  }

  /** The tick finds an attempt overdue. */
  predicate TimesOut(s: State, e: Event) {
    e.Tick? && s.connecting && !e.r.after && Elapsed(e.r.now, s.connectStart) > TIMEOUT
  }

  /** The rung stays on the staircase; it goes back to full power only on a promotion or an edit of
      the user's power, down one rung only on a timeout, and otherwise stays. */
  lemma RungMoves(s: State, e: Event)
    requires InRange(s)
    ensures InRange(Step(s, e).0)
    ensures Step(s, e).0.idx ==
            if e.SetPref? || Promotes(s, e) then -1
            else if TimesOut(s, e) && s.idx + 1 < |STEPS| then s.idx + 1
            else s.idx
  {
  }

  function Run(s: State, es: seq<Event>): (r: (State, seq<Command>))
    requires InRange(s)
    ensures InRange(r.0)
  {
    if es == [] then (s, [])
    else
      var (before, cmds) := Run(s, es[..|es| - 1]);
      var e := es[|es| - 1];
      RungMoves(before, e);
      var (after, more) := Step(before, e);
      (after, cmds + more)
  }

  // ---- Attempts ----

  /** The event starts an association. */
  predicate Attempts(s: State, e: Event)
    requires InRange(s)
  {
    match e
    case Tick(r) =>
      && s.hasSsid && !r.after
      && (if s.connecting then Elapsed(r.now, s.connectStart) > TIMEOUT && s.idx + 1 < |STEPS|
          else s.enabled && Elapsed(r.now, s.lastRetry) >= RETRY)
    case SetEnabled(on, _) => on && s.hasSsid
    case SetCredentials(nonEmpty, _) => s.enabled && nonEmpty
    case SetPref(_, _) => false
  }

  /** What the probe part of an event tells the radio. */
  function ProbeCommands(s: State, e: Event): seq<Command>
    requires InRange(s)
  {
    if e.Tick? then AfterProbe(s, e.r).1 else []
  }

  /** Every attempt resets the radio and then forces the user's power if set, else the rung's, else
      nothing; and nothing but these events starts one. */
  lemma AttemptPower(s: State, e: Event)
    requires InRange(s) && InRange(Step(s, e).0)
    ensures Begin !in ProbeCommands(s, e)
    ensures Attempts(s, e) ==>
              var t := Step(s, e).0;
              && t.connecting
              && Step(s, e).1 == ProbeCommands(s, e) + ([Begin] + if Forced(t) > 0.0 then [SetTx(Forced(t))] else [])
    ensures !Attempts(s, e) ==> Begin !in Step(s, e).1
  {
  }

  // ---- A radio that never connects ----

  predicate Silent(e: Event) {
    e.Tick? && !e.r.after
  }

  function Timeouts(s: State, es: seq<Event>): nat
    requires InRange(s)
  {
    if es == [] then 0
    else
      var front := es[..|es| - 1];
      Timeouts(s, front) + if TimesOut(Run(s, front).0, es[|es| - 1]) then 1 else 0
  }

  /** An attempt begun at rung k steps down once per timeout and ends as failed with the timeout
      number 5 - k, not before. */
  lemma {:induction false} FailsAfterAllRungs(s: State, es: seq<Event>)
    requires InRange(s) && s.connecting && s.hasSsid
    requires forall i :: 0 <= i < |es| ==> Silent(es[i])
    requires forall n :: 0 <= n < |es| ==> Timeouts(s, es[..n]) < |STEPS| - s.idx
    ensures var t, n := Run(s, es).0, Timeouts(s, es);
            && t.hasSsid
            && (n < |STEPS| - s.idx ==> t.connecting && t.idx == s.idx + n)
            && n <= |STEPS| - s.idx
            && (n == |STEPS| - s.idx ==> !t.connecting && t.status == Failed && t.idx == |STEPS| - 1)
  {
    if es != [] {
      var front, e := es[..|es| - 1], es[|es| - 1];
      assert forall n :: 0 <= n < |front| ==> front[..n] == es[..n];
      FailsAfterAllRungs(s, front);
      assert Timeouts(s, es[..|es| - 1]) < |STEPS| - s.idx;
      SilentStep(Run(s, front).0, e);
    }
  }

  lemma SilentStep(s: State, e: Event)
    requires InRange(s) && s.connecting && s.hasSsid && Silent(e)
    ensures var t := Step(s, e).0;
            t.hasSsid &&
            if !TimesOut(s, e) then t == s
            else if s.idx + 1 < |STEPS| then
              t == s.(idx := s.idx + 1, connectStart := e.r.begin, lastRetry := e.r.begin, status := Connecting)
            else t == s.(connecting := false, status := Failed)
  {
  }

  // ---- ... fails in time ----

  /** A silent tick at an absolute time, an attempt in it starting a little later. */
  datatype Moment = Moment(at: nat, begin: nat)

  function AsTick(m: Moment): Event {
    Tick(Reading(false, false, false, m.at % WORD, m.at % WORD, m.begin % WORD))
  }

  function AsTicks(ms: seq<Moment>): (es: seq<Event>)
    ensures |es| == |ms| && forall i :: 0 <= i < |ms| ==> es[i] == AsTick(ms[i])
  {
    seq(|ms|, i requires 0 <= i < |ms| => AsTick(ms[i]))
  }

  /** Ticks in order and never more than gap apart, from the attempt's start on. */
  ghost predicate Paced(start: nat, ms: seq<Moment>, gap: nat) {
    && (forall i :: 0 <= i < |ms| ==> ms[i].at <= ms[i].begin <= ms[i].at + gap)
    && (|ms| > 0 ==> start <= ms[0].at <= start + gap)
    && (forall i :: 0 < i < |ms| ==> ms[i - 1].begin <= ms[i].at <= ms[i - 1].at + gap)
  }

  /** When the n-th next attempt has started at the latest. */
  function Latest(start: nat, n: nat, gap: nat): nat {
    start + n * (TIMEOUT + 2 * gap)
  }

  lemma LatestNext(start: nat, n: nat, gap: nat)
    ensures Latest(start, 0, gap) == start && Latest(start, n + 1, gap) == Latest(start, n, gap) + TIMEOUT + 2 * gap
  {
    assert (n + 1) * (TIMEOUT + 2 * gap) == n * (TIMEOUT + 2 * gap) + TIMEOUT + 2 * gap;
  }

  /** Where a never-connecting run stands: the start of the running attempt, on an unwrapped clock. */
  ghost predicate Standing(s: State, t: State, start: nat, begun: nat, last: nat, n: nat, gap: nat) {
    && t.connecting && t.hasSsid && t.idx == s.idx + n && n < |STEPS| - s.idx
    && t.connectStart == begun % WORD && begun <= Latest(start, n, gap)
    && last <= begun + TIMEOUT && begun <= last + gap
  }

  /** One more tick of such a run. */
  lemma StandingStep(s: State, t: State, start: nat, begun: nat, last: nat, n: nat, gap: nat, m: Moment) returns (begun': nat)
    requires InRange(s) && InRange(t) && Standing(s, t, start, begun, last, n, gap)
    requires gap + TIMEOUT < WORD && begun <= m.at <= last + gap && m.at <= m.begin <= m.at + gap
    ensures begun' <= m.begin
    ensures var out, u := TimesOut(t, AsTick(m)), Step(t, AsTick(m)).0;
            if !out then Standing(s, u, start, begun', m.at, n, gap)
            else if n + 1 < |STEPS| - s.idx then Standing(s, u, start, begun', m.at, n + 1, gap)
            else u.status == Failed
  {
    hide Latest;
    LatestNext(start, n, gap);
    ElapsedWithinAWrap(m.at, begun);
    SilentStep(t, AsTick(m));
    begun' := if TimesOut(t, AsTick(m)) then m.begin else begun;
  }

  /** Some tick of the run ended as failed. */
  ghost predicate FailedBy(s: State, ms: seq<Moment>)
    requires InRange(s)
  {
    exists n :: 0 <= n <= |ms| && Run(s, AsTicks(ms[..n])).0.status == Failed
  }

  lemma FailedLater(s: State, front: seq<Moment>, m: Moment)
    requires InRange(s) && FailedBy(s, front)
    ensures FailedBy(s, front + [m])
  {
    hide Run, AsTicks;
    var n :| 0 <= n <= |front| && Run(s, AsTicks(front[..n])).0.status == Failed;
    assert (front + [m])[..n] == front[..n];
  }

  lemma FailedNow(s: State, ms: seq<Moment>)
    requires InRange(s) && Run(s, AsTicks(ms)).0.status == Failed
    ensures FailedBy(s, ms)
  {
    hide Run, AsTicks;
    assert ms[..|ms|] == ms;
  }

  lemma RunOneMore(s: State, front: seq<Moment>, m: Moment)
    requires InRange(s)
    ensures var t := Run(s, AsTicks(front)).0;
            && Run(s, AsTicks(front + [m])).0 == Step(t, AsTick(m)).0
            && Timeouts(s, AsTicks(front + [m])) == Timeouts(s, AsTicks(front)) + if TimesOut(t, AsTick(m)) then 1 else 0
  {
    hide Step, TimesOut;
    var es := AsTicks(front + [m]);
    assert es[..|es| - 1] == AsTicks(front) && es[|es| - 1] == AsTick(m);
  }

  lemma PacedPrefix(start: nat, front: seq<Moment>, m: Moment, gap: nat)
    requires Paced(start, front + [m], gap)
    ensures Paced(start, front, gap)
    ensures (if front == [] then start else front[|front| - 1].begin) <= m.at <=
            (if front == [] then start else front[|front| - 1].at) + gap
    ensures m.at <= m.begin <= m.at + gap
  {
    var ms := front + [m];
    assert forall i :: 0 <= i < |front| ==> front[i] == ms[i];
    assert ms[|front|] == m;
  }

  lemma {:induction false} StandsOrFails(s: State, ms: seq<Moment>, start: nat, gap: nat) returns (begun: nat)
    requires InRange(s) && s.connecting && s.hasSsid && s.connectStart == start % WORD
    requires Paced(start, ms, gap) && gap + TIMEOUT < WORD
    ensures FailedBy(s, ms) ||
            (var last := if ms == [] then start else ms[|ms| - 1].at;
             Standing(s, Run(s, AsTicks(ms)).0, start, begun, last, Timeouts(s, AsTicks(ms)), gap) &&
             begun <= if ms == [] then start else ms[|ms| - 1].begin)
  {
    hide FailedBy, Latest, Standing, Step, TimesOut, AsTick, Paced, Run, AsTicks, Timeouts;
    begun := start;
    if ms == [] {
      StandsAtStart(s, start, gap);
    } else {
      var front, m := ms[..|ms| - 1], ms[|ms| - 1];
      assert ms == front + [m];
      PacedPrefix(start, front, m, gap);
      begun := StandsOrFails(s, front, start, gap);
      RunOneMore(s, front, m);
      if FailedBy(s, front) {
        FailedLater(s, front, m);
      } else {
        var last := if front == [] then start else front[|front| - 1].at;
        begun := StandingStep(s, Run(s, AsTicks(front)).0, start, begun, last, Timeouts(s, AsTicks(front)), gap, m);
        if Run(s, AsTicks(ms)).0.status == Failed {
          FailedNow(s, ms);
        }
      }
    }
  }

  lemma StandsAtStart(s: State, start: nat, gap: nat)
    requires InRange(s) && s.connecting && s.hasSsid && s.connectStart == start % WORD
    ensures Standing(s, Run(s, AsTicks([])).0, start, start, start, Timeouts(s, AsTicks([])), gap)
  {
    assert AsTicks([]) == [];
  }

  /** If the radio never answers and ticks keep coming at most gap apart, the attempt has failed by
      the time every remaining rung has had its timeout and two gaps, clock wraps included. */
  lemma FailsByDeadline(s: State, ms: seq<Moment>, start: nat, gap: nat)
    requires InRange(s) && s.connecting && s.hasSsid && s.connectStart == start % WORD
    requires Paced(start, ms, gap) && gap + TIMEOUT < WORD
    requires |ms| > 0 && ms[|ms| - 1].at > start + (|STEPS| - s.idx) * (TIMEOUT + 2 * gap)
    ensures exists n :: 0 <= n <= |ms| && Run(s, AsTicks(ms[..n])).0.status == Failed
  {
    hide Run, Timeouts, Paced, AsTicks;
    var begun := StandsOrFails(s, ms, start, gap);
    var n, t := Timeouts(s, AsTicks(ms)), Run(s, AsTicks(ms)).0;
    if !FailedBy(s, ms) {
      TooLate(s, t, start, begun, ms[|ms| - 1].at, n, gap);
    }
  }

  lemma TooLate(s: State, t: State, start: nat, begun: nat, last: nat, n: nat, gap: nat)
    requires InRange(s) && Standing(s, t, start, begun, last, n, gap)
    ensures last <= start + (|STEPS| - s.idx) * (TIMEOUT + 2 * gap)
  {
    LatestNext(start, n, gap);
    ProductOrder(n + 1, |STEPS| - s.idx, TIMEOUT + 2 * gap);
  }

  // ---- The promotion probe ----

  /** The power the radio is left at. */
  function Power(before: real, cmds: seq<Command>): real {
    if cmds == [] then before
    else
      match cmds[|cmds| - 1]
      case Begin => DEFAULT_POWER
      case SetTx(dbm) => dbm
      case Disconnect => Power(before, cmds[..|cmds| - 1])
  }

  lemma {:induction false} PowerConcat(before: real, a: seq<Command>, b: seq<Command>)
    ensures Power(before, a + b) == Power(Power(before, a), b)
  {
    if b == [] {
      assert a + b == a;
    } else {
      assert (a + b)[..|a + b| - 1] == a + b[..|b| - 1];
      PowerConcat(before, a, b[..|b| - 1]);
    }
  }

  /** A running probe ends only on an edit of the user's power, on a promotion, or when the link is
      up at the start of a tick and down an instant later inside it. */
  lemma ProbeEnds(s: State, e: Event)
    requires InRange(s) && s.probeStarted != 0
    ensures Step(s, e).0.probeStarted == 0 <==>
            e.SetPref? || Promotes(s, e) || (e.Tick? && Probes(s, e.r) && !e.r.inProbe)
    ensures Step(s, e).0.probeStarted in {0, s.probeStarted}
  {
  }

  /** While a probe runs, the radio stands at full power until an attempt, and after one at the
      user's power if set, else at a rung's. */
  lemma {:induction false} PowerWhileProbing(s: State, es: seq<Event>)
    requires InRange(s) && s.probeStarted != 0 && s.idx >= 0
    requires forall n :: 0 <= n <= |es| ==> Run(s, es[..n]).0.probeStarted != 0
    ensures var (t, cmds) := Run(s, es);
            && t.idx >= 0 && t.pref == s.pref && t.probeStarted != 0
            && (Begin !in cmds ==> Power(DEFAULT_POWER, cmds) == DEFAULT_POWER)
            && (Begin in cmds ==> AttemptLeaves(s.pref, Power(DEFAULT_POWER, cmds)))
  {
    assert es[..|es|] == es;
    if es != [] {
      var front, e := es[..|es| - 1], es[|es| - 1];
      assert forall n :: 0 <= n <= |front| ==> front[..n] == es[..n];
      PowerWhileProbing(s, front);
      var (t, cmds) := Run(s, front);
      ProbingStep(t, e);
      PowerConcat(DEFAULT_POWER, cmds, Step(t, e).1);
    }
  }

  /** The power an attempt at reduced power leaves the radio at. */
  predicate AttemptLeaves(pref: real, power: real) {
    if pref > 0.0 then power == pref else power < DEFAULT_POWER
  }

  lemma ProbingStep(s: State, e: Event)
    requires InRange(s) && s.probeStarted != 0 && s.idx >= 0 && Step(s, e).0.probeStarted != 0
    ensures InRange(Step(s, e).0) && Step(s, e).0.idx >= 0 && Step(s, e).0.pref == s.pref
    ensures var cmds := Step(s, e).1;
            if Attempts(s, e) then Begin in cmds && forall p :: AttemptLeaves(s.pref, Power(p, cmds))
            else Begin !in cmds && forall p :: Power(p, cmds) == p
  {
    RungMoves(s, e);
    AttemptPower(s, e);
    ProbeEnds(s, e);
    assert ProbeCommands(s, e) == [];
    var t, cmds := Step(s, e).0, Step(s, e).1;
    if Attempts(s, e) {
      assert cmds == [Begin, SetTx(Forced(t))];
      assert Begin == cmds[0];
    } else if e.SetEnabled? && !e.on {
      forall p ensures Power(p, cmds) == p {
        assert cmds[..0] == [];
      }
    } else {
      assert cmds == [];
    }
  }

  /** A probe's success is genuine, the radio standing at full power, exactly when no association
      was started since the probe began, or the user's own power is full power. */
  lemma PromotionIsGenuine(s: State, es: seq<Event>, e: Event)
    requires InRange(s) && s.probeStarted != 0 && s.idx >= 0
    requires forall n :: 0 <= n <= |es| ==> Run(s, es[..n]).0.probeStarted != 0
    requires Promotes(Run(s, es).0, e)
    ensures Run(s, es + [e]).0.idx == -1
    ensures Power(DEFAULT_POWER, Run(s, es).1) == DEFAULT_POWER <==> Begin !in Run(s, es).1 || s.pref == DEFAULT_POWER
  {
    PowerWhileProbing(s, es);
    assert (es + [e])[..|es|] == es;
    RungMoves(Run(s, es).0, e);
  }

  /** One more event of a run under construction. */
  lemma RunLonger(s: State, es: seq<Event>, e: Event)
    requires InRange(s)
    ensures var t := Run(s, es).0;
            Run(s, es + [e]) == (Step(t, e).0, Run(s, es).1 + Step(t, e).1)
  {
    assert (es + [e])[..|es|] == es;
  }

  /** The first minutes of such a boot: a timeout, a connection at 17 dBm, and an hour later a probe. */
  lemma ProbeFromBoot() returns (es: seq<Event>)
    ensures Run(Setup(true, true, 0.0, 0).0, es) ==
            (State(true, true, 0.0, false, 0, 15001, 15001, 3616001, 3616001, Connected),
             [Begin, SetTx(17.0), SetTx(DEFAULT_POWER)])
    ensures forall e :: e in es ==> e.Tick?
  {
    var s := Setup(true, true, 0.0, 0).0;
    var e0 := Tick(Reading(false, false, false, 15001, 15001, 15001));
    var e1 := Tick(Reading(false, false, true, 16001, 16001, 16001));
    var e2 := Tick(Reading(true, true, true, 3616001, 3616001, 3616001));
    var none: seq<Command> := [];
    var c := [Begin, SetTx(17.0)];
    assert none + none == none && [Begin] + [SetTx(17.0)] == c && none + c == c && c + none == c;
    RunLonger(s, [], e0);
    var s0 := s.(idx := 0, connectStart := 15001, lastRetry := 15001);
    assert Step(s, e0) == (s0, c);
    assert [] + [e0] == [e0];
    RunLonger(s, [e0], e1);
    var s1 := s0.(connecting := false, status := Connected, nextProbe := 3616001);
    assert Step(s0, e1) == (s1, none);
    RunLonger(s, [e0] + [e1], e2);
    var s2 := s1.(probeStarted := 3616001);
    assert [SetTx(DEFAULT_POWER)] + none == [SetTx(DEFAULT_POWER)];
    assert Step(s1, e2) == (s2, [SetTx(DEFAULT_POWER)]);
    assert c + [SetTx(DEFAULT_POWER)] == [Begin, SetTx(17.0), SetTx(DEFAULT_POWER)];
    es := [e0] + [e1] + [e2];
  }

  /** A run of ticks from boot after which the next one declares a promotion, the radio standing at
      the given power. */
  ghost predicate PromotedAt(es: seq<Event>, e: Event, power: real) {
    var (t, cmds) := Run(Setup(true, true, 0.0, 0).0, es);
    (forall x :: x in es ==> x.Tick?) && Promotes(t, e) && Power(DEFAULT_POWER, cmds) == power
  }

  /** The link is found down, then up again, and the probe's watch is over. */
  lemma LinkReturns(s: State, down: Event, up: Event, late: Event)
    requires s == State(true, true, 0.0, false, 0, 15001, 15001, 3616001, 3616001, Connected)
    requires down == Tick(Reading(false, false, false, 3617001, 3617001, 3617001))
    requires up == Tick(Reading(false, false, true, 3618001, 3618001, 3618001))
    requires late == Tick(Reading(true, true, true, 3647001, 3647001, 3647001))
    ensures Step(s, down).1 == [Begin, SetTx(17.0)] && InRange(Step(s, down).0)
    ensures var t := Step(Step(s, down).0, up); t.1 == [] && InRange(t.0) && Promotes(t.0, late)
  {
    var none: seq<Command> := [];
    var c := [Begin, SetTx(17.0)];
    assert none + none == none && [Begin] + [SetTx(17.0)] == c && none + c == c;
    var s1 := s.(connecting := true, connectStart := 3617001, lastRetry := 3617001, status := Connecting);
    assert Step(s, down) == (s1, c);
    assert Step(s1, up) == (s1.(connecting := false, status := Connected, nextProbe := 7218001), none);
  }

  /** The other case happens, from boot and with ticks alone: the link drops between two ticks, comes
      back at reduced power, and a later tick declares the probe's success. */
  lemma DroppedLinkIsPromoted()
    ensures exists es: seq<Event>, e: Event :: PromotedAt(es, e, 17.0)
  {
    var b := Setup(true, true, 0.0, 0).0;
    var es := ProbeFromBoot();
    var s, cmds := Run(b, es).0, Run(b, es).1;
    var down := Tick(Reading(false, false, false, 3617001, 3617001, 3617001));
    var up := Tick(Reading(false, false, true, 3618001, 3618001, 3618001));
    var late := Tick(Reading(true, true, true, 3647001, 3647001, 3647001));
    var c := [Begin, SetTx(17.0)];
    LinkReturns(s, down, up, late);
    hide Step, Promotes;
    RunLonger(b, es, down);
    RunLonger(b, es + [down], up);
    var all := es + [down] + [up];
    assert cmds + c + [] == cmds + c;
    PowerConcat(DEFAULT_POWER, cmds, c);
    assert PromotedAt(all, late, 17.0);
  }

  // ---- The hour between probes ----

  /** A probe scheduled at a true time waits its hour exactly when the 32-bit clock does not pass
      its wrap within it; otherwise it is due at once. When the hour is over it is due, unless the
      scheduled reading is exactly 0, which stands for none. */
  lemma ProbeWaitsAnHour(scheduled: nat)
    ensures var next := Later(scheduled % WORD, PROBE_INTERVAL);
            && ((forall now: nat :: scheduled <= now < scheduled + PROBE_INTERVAL ==> !ProbeDue(next, now % WORD)) <==>
                scheduled % WORD + PROBE_INTERVAL <= WORD)
            && (scheduled % WORD + PROBE_INTERVAL > WORD ==> ProbeDue(next, scheduled % WORD))
            && (ProbeDue(next, (scheduled + PROBE_INTERVAL) % WORD) <==> scheduled % WORD + PROBE_INTERVAL != WORD)
  {
    var at, next := scheduled % WORD, Later(scheduled % WORD, PROBE_INTERVAL);
    ReadingAfter(scheduled, PROBE_INTERVAL);
    if at + PROBE_INTERVAL < WORD {
      forall now: nat | scheduled <= now < scheduled + PROBE_INTERVAL ensures !ProbeDue(next, now % WORD) {
        ReadingAfter(scheduled, now - scheduled);
      }
    } else if at + PROBE_INTERVAL == WORD {
      assert next == 0;
    } else {
      assert ProbeDue(next, scheduled % WORD);
    }
  }

  lemma ReadingAfter(start: nat, ms: nat)
    requires ms <= PROBE_INTERVAL
    ensures (start + ms) % WORD == if start % WORD + ms < WORD then start % WORD + ms else start % WORD + ms - WORD
  {
    var q := start / WORD;
    assert start + ms == WORD * q + (start % WORD + ms);
  }

  // ---- The user's power ----

  /** With a power set by the user, an event sets the radio to another one exactly when a probe
      starts at full power, or a failed one restores a rung. */
  lemma UserPowerHolds(s: State, e: Event)
    requires InRange(s) && s.pref > 0.0 && !e.SetPref?
    ensures (forall c :: c in Step(s, e).1 && c.SetTx? ==> c.dbm == s.pref) <==>
            !(e.Tick? && Probes(s, e.r) &&
              (if s.probeStarted == 0 then s.nextProbe != 0 && e.r.probeNow >= s.nextProbe && s.pref != DEFAULT_POWER
               else !e.r.inProbe && Reduced(s) != s.pref))
  {
    RungMoves(s, e);
    AttemptPower(s, e);
    var cmds := Step(s, e).1;
    var probe := ProbeCommands(s, e);
    if Attempts(s, e) {
      var t := Step(s, e).0;
      assert t.pref == s.pref;
      assert forall c :: c in cmds <==> c in probe || c == Begin || c == SetTx(s.pref);
    } else {
      assert forall c :: c in cmds && c.SetTx? ==> c in probe;
      assert cmds == probe || e.SetEnabled?;
    }
    if probe != [] {
      assert probe == [probe[0]] && probe[0] in cmds;
    }
  }

  /** It happens: the rung left by an earlier timeout lets a probe override the user's power. */
  lemma ProbeOverridesUser()
    ensures exists e0: Event, e1: Event, e2: Event ::
              Run(Setup(true, true, 10.0, 0).0, [e0, e1, e2]).1 == [Begin, SetTx(10.0), SetTx(DEFAULT_POWER)]
              && !e0.SetPref? && !e1.SetPref? && !e2.SetPref?
  {
    var none: seq<Command> := [];
    assert none + none == none;
    var s := Setup(true, true, 10.0, 0).0;
    var e0 := Tick(Reading(false, false, false, 15001, 15001, 15001));
    var e1 := Tick(Reading(false, false, true, 16001, 16001, 16001));
    var e2 := Tick(Reading(true, true, true, 3616001, 3616001, 3616001));
    var es := [e0, e1, e2];
    assert es[..2] == [e0, e1] && [e0, e1][..1] == [e0] && [e0][..0] == [];
    var c := [Begin, SetTx(10.0)];
    assert [Begin] + [SetTx(10.0)] == c && [] + c == c && c + [] == c;
    assert Run(s, []) == (s, []);
    var s0 := s.(idx := 0, connectStart := 15001, lastRetry := 15001);
    assert Step(s, e0) == (s0, c);
    assert Run(s, [e0]) == (s0, c);
    var s1 := s0.(connecting := false, status := Connected, nextProbe := 3616001);
    assert Step(s0, e1) == (s1, []);
    assert Run(s, [e0, e1]) == (s1, c);
    assert Step(s1, e2).1 == [SetTx(DEFAULT_POWER)];
    assert c + [SetTx(DEFAULT_POWER)] == [Begin, SetTx(10.0), SetTx(DEFAULT_POWER)];
    assert Run(s, es).1 == c + [SetTx(DEFAULT_POWER)];
  }
}
