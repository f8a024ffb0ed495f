/** The stream session as a transition system: one atomic step per region in which a thread holds
    the session mutex. `calls` logs when each onStart/onStop call begins and ends. */
module Session {
  import opened Seqs

  datatype Phase = Idle | Starting | Streaming | Stopping

  datatype Call = StartBegins | StartSucceeds | StartFails | StopBegins | StopEnds

  /** The session's fields, plus what the Go runtime keeps for it: idle timers that are armed, timer
      callbacks that have fired and wait for the mutex, and the stopDone channels closed so far. */
  datatype Fields = Fields(
    phase: Phase,
    clients: int,
    stopTimer: Option<nat>,
    stopDone: Option<nat>,
    armed: set<nat>,
    fired: set<nat>,
    timers: nat,
    chans: nat,
    closed: seq<nat>,
    calls: seq<Call>)

  const InitFields := Fields(Idle, 0, None, None, {}, {}, 0, 0, [], [])

  // ---------- Lock-held regions ----------

  /** Timer.Stop: an armed timer never fires; one that has fired is not called back. */
  function CancelTimer(s: Fields): Fields {
    if s.stopTimer.None? then s
    else s.(armed := s.armed - {s.stopTimer.value}, stopTimer := None)
  }

  /** Waiting on a nil channel would block for ever; `Channels` shows that it never happens. */
  datatype Connected = Attached | MustWait(done: Option<nat>) | MustStart

  function ConnectOutcome(s: Fields): Connected {
    match s.phase
    case Streaming | Starting => Attached
    case Stopping => MustWait(s.stopDone)
    case Idle => MustStart
  }

  function ConnectRegion(s: Fields): Fields {
    var c := CancelTimer(s);
    match s.phase
    case Streaming | Starting => c.(clients := s.clients + 1)
    case Stopping => c
    case Idle => c.(clients := s.clients + 1, phase := Starting, calls := s.calls + [StartBegins])
  }

  function StartReturned(s: Fields, ok: bool): Fields {
    if ok then s.(phase := Streaming, calls := s.calls + [StartSucceeds])
    else s.(phase := Idle, clients := s.clients - 1, calls := s.calls + [StartFails])
  }

  function BeginStop(s: Fields): Fields {
    s.(phase := Stopping, stopDone := Some(s.chans), chans := s.chans + 1, calls := s.calls + [StopBegins])
  }

  function EndStop(s: Fields, done: nat): Fields {
    s.(phase := Idle, stopDone := None, closed := s.closed + [done], calls := s.calls + [StopEnds])
  }

  /** Does the disconnect run stopLocked? */
  predicate DisconnectStops(s: Fields, warm: bool) {
    s.clients == 1 && s.phase == Streaming && !warm
  }

  function DisconnectRegion(s: Fields, warm: bool): Fields {
    if s.clients <= 0 then s
    else
      var d := s.(clients := s.clients - 1);
      if d.clients > 0 || s.phase != Streaming then d
      else if warm then d.(stopTimer := Some(s.timers), armed := s.armed + {s.timers}, timers := s.timers + 1)
      else BeginStop(d)
  }

  predicate TimerStops(s: Fields) {
    s.clients <= 0 && s.phase == Streaming
  }

  function TimerRegion(s: Fields, id: nat): Fields {
    var c := s.(fired := s.fired - {id}, stopTimer := None);
    if TimerStops(s) then BeginStop(c) else c
  }

  function RestartRegion(s: Fields): Fields {
    if s.phase != Streaming then s else BeginStop(CancelTimer(s))
  }

  function RestartStopped(s: Fields, done: nat): Fields {
    s.(stopDone := None, closed := s.closed + [done], phase := Starting, calls := s.calls + [StopEnds, StartBegins])
  }

  function RestartReturned(s: Fields, ok: bool, clients: int): Fields {
    if ok then s.(phase := Streaming, clients := clients, calls := s.calls + [StartSucceeds])
    else s.(phase := Idle, clients := 0, calls := s.calls + [StartFails])
  }

  function ShutdownRegion(s: Fields): Fields {
    var c := CancelTimer(s);
    if s.phase != Streaming then c else BeginStop(c.(clients := 0))
  }

  // ---------- Threads and steps ----------

  /** Where a thread stands while it does not hold the mutex. */
  datatype Pc =
    | Waiting(on: Option<nat>)
    | InStart
    | InStop(done: nat)
    | RestartInStop(done: nat, saved: int)
    | RestartInStart(saved: int)

  predicate Owns(pc: Pc) {
    !pc.Waiting?
  }

  datatype Sys = Sys(f: Fields, threads: map<nat, Pc>)

  const Init := Sys(InitFields, map[])

  datatype Step =
    | Connect(t: nat)
    | Wake(t: nat)
    | WaitTimeout(t: nat)
    | StartDone(t: nat, ok: bool)
    | Disconnect(t: nat)
    | Fire(id: nat)
    | TimerRuns(t: nat, id: nat)
    | StopDone(t: nat)
    | Restart(t: nat)
    | RestartGoesOn(t: nat)
    | RestartDone(t: nat, ok: bool)
    | Shutdown(t: nat)

  predicate Enabled(s: Sys, l: Step) {
    match l
    case Connect(t) => t !in s.threads
    case Wake(t) => t in s.threads && s.threads[t].Waiting? && s.threads[t].on.Some? && s.threads[t].on.value in s.f.closed
    case WaitTimeout(t) => t in s.threads && s.threads[t].Waiting?
    case StartDone(t, _) => t in s.threads && s.threads[t].InStart?
    case Disconnect(t) => t !in s.threads
    case Fire(id) => id in s.f.armed
    case TimerRuns(t, id) => t !in s.threads && id in s.f.fired
    case StopDone(t) => t in s.threads && s.threads[t].InStop?
    case Restart(t) => t !in s.threads
    case RestartGoesOn(t) => t in s.threads && s.threads[t].RestartInStop?
    case RestartDone(t, _) => t in s.threads && s.threads[t].RestartInStart?
    case Shutdown(t) => t !in s.threads
  }

  function Connecting(s: Sys, t: nat): Sys {
    var f := ConnectRegion(s.f);
    match ConnectOutcome(s.f)
    case Attached => Sys(f, s.threads - {t})
    case MustWait(done) => Sys(f, s.threads[t := Waiting(done)])
    case MustStart => Sys(f, s.threads[t := InStart])
  }

  function Apply(warm: bool, s: Sys, l: Step): Sys
    requires Enabled(s, l)
  {
    match l
    case Connect(t) => Connecting(s, t)
    case Wake(t) => Connecting(s, t)
    case WaitTimeout(t) => s.(threads := s.threads - {t})
    case StartDone(t, ok) => Sys(StartReturned(s.f, ok), s.threads - {t})
    case Disconnect(t) =>
      Sys(DisconnectRegion(s.f, warm),
          if DisconnectStops(s.f, warm) then s.threads[t := InStop(s.f.chans)] else s.threads)
    case Fire(id) => s.(f := s.f.(armed := s.f.armed - {id}, fired := s.f.fired + {id}))
    case TimerRuns(t, id) =>
      Sys(TimerRegion(s.f, id), if TimerStops(s.f) then s.threads[t := InStop(s.f.chans)] else s.threads)
    case StopDone(t) => Sys(EndStop(s.f, s.threads[t].done), s.threads - {t})
    case Restart(t) =>
      Sys(RestartRegion(s.f),
          if s.f.phase == Streaming then s.threads[t := RestartInStop(s.f.chans, s.f.clients)] else s.threads)
    case RestartGoesOn(t) =>
      Sys(RestartStopped(s.f, s.threads[t].done), s.threads[t := RestartInStart(s.threads[t].saved)])
    case RestartDone(t, ok) => Sys(RestartReturned(s.f, ok, s.threads[t].saved), s.threads - {t})
    case Shutdown(t) =>
      Sys(ShutdownRegion(s.f), if s.f.phase == Streaming then s.threads[t := InStop(s.f.chans)] else s.threads)
  }

  /** A run from the initial state: `ss[i + 1]` follows from `ss[i]` by step `ls[i]`. */
  ghost predicate IsRun(warm: bool, ss: seq<Sys>, ls: seq<Step>) {
    && |ss| == |ls| + 1
    && ss[0] == Init
    && (forall i :: 0 <= i < |ls| ==> Enabled(ss[i], ls[i]) && ss[i + 1] == Apply(warm, ss[i], ls[i]))
  }

  // ---------- Lifecycle exclusion ----------

  predicate MayFollow(a: Call, b: Call) {
    match a
    case StartBegins => b.StartSucceeds? || b.StartFails?
    case StartSucceeds => b.StopBegins?
    case StartFails => b.StartBegins?
    case StopBegins => b.StopEnds?
    case StopEnds => b.StartBegins?
  }

  /** Calls never overlap, a stop follows a successful start directly, and two successful starts are
      always separated by a whole stop. */
  predicate Alternates(calls: seq<Call>) {
    && (calls != [] ==> calls[0] == StartBegins)
    && (forall i :: 0 < i < |calls| ==> MayFollow(calls[i - 1], calls[i]))
  }

  predicate PhaseMatches(phase: Phase, calls: seq<Call>) {
    if calls == [] then phase == Idle
    else match calls[|calls| - 1]
         case StartBegins => phase == Starting
         case StartSucceeds => phase == Streaming
         case StopBegins => phase == Stopping
         case _ => phase == Idle
  }

  ghost predicate Exclusive(s: Sys) {
    && (forall t :: t in s.threads && Owns(s.threads[t]) ==>
          s.f.phase == if s.threads[t].InStart? || s.threads[t].RestartInStart? then Starting else Stopping)
    && (forall t, u :: t in s.threads && u in s.threads && Owns(s.threads[t]) && Owns(s.threads[u]) ==> t == u)
    && (s.f.phase == Starting || s.f.phase == Stopping ==> exists t :: t in s.threads && Owns(s.threads[t]))
  }

  /** Channels are closed in the order of their creation, each once, all but the current one. */
  ghost predicate Channels(s: Sys) {
    ChannelFields(s) && ChannelThreads(s)
  }

  ghost predicate ChannelFields(s: Sys) {
    && |s.f.closed| == s.f.chans - (if s.f.phase == Stopping then 1 else 0)
    && (forall i :: 0 <= i < |s.f.closed| ==> s.f.closed[i] == i)
    && s.f.stopDone == (if s.f.phase == Stopping then Some(s.f.chans - 1) else None)
  }

  ghost predicate ChannelThreads(s: Sys) {
    StopperHoldsChannel(s) && WaitersHaveChannel(s)
  }

  ghost predicate StopperHoldsChannel(s: Sys) {
    forall t :: t in s.threads && (s.threads[t].InStop? || s.threads[t].RestartInStop?) ==>
      s.f.stopDone == Some(s.threads[t].done)
  }

  ghost predicate WaitersHaveChannel(s: Sys) {
    forall t :: t in s.threads && s.threads[t].Waiting? ==>
      s.threads[t].on.Some? && s.threads[t].on.value < s.f.chans
  }

  ghost predicate Counts(s: Sys) {
    && s.f.clients >= -1
    && (s.f.phase != Idle ==> s.f.clients >= 0)
    && (forall t :: t in s.threads && (s.threads[t].RestartInStop? || s.threads[t].RestartInStart?) ==>
          s.threads[t].saved >= 0)
  }

  ghost predicate Inv(s: Sys) {
    && Exclusive(s)
    && Channels(s)
    && Counts(s)
    && Alternates(s.f.calls)
    && PhaseMatches(s.f.phase, s.f.calls)
  }

  lemma StepExclusive(warm: bool, s: Sys, l: Step)
    requires Exclusive(s) && Enabled(s, l)
    ensures Exclusive(Apply(warm, s, l))
  {
    var s' := Apply(warm, s, l);
    if s'.f.phase == Starting || s'.f.phase == Stopping {
      if s.f.phase == Starting || s.f.phase == Stopping {
        var t :| t in s.threads && Owns(s.threads[t]);
        assert t in s'.threads && Owns(s'.threads[t]);
      } else {
        assert l.t in s'.threads && Owns(s'.threads[l.t]);
      }
    }
  }

  lemma StepChannelFields(warm: bool, s: Sys, l: Step)
    requires Exclusive(s) && Channels(s) && Enabled(s, l)
    ensures ChannelFields(Apply(warm, s, l))
  {
  }

  lemma StepStopper(warm: bool, s: Sys, l: Step)
    requires Exclusive(s) && Channels(s) && Enabled(s, l)
    ensures StopperHoldsChannel(Apply(warm, s, l))
  {
  }

  lemma StepWaiters(warm: bool, s: Sys, l: Step)
    requires ChannelFields(s) && WaitersHaveChannel(s) && Enabled(s, l)
    ensures WaitersHaveChannel(Apply(warm, s, l))
  {
  }

  lemma StepCounts(warm: bool, s: Sys, l: Step)
    requires Exclusive(s) && Counts(s) && Enabled(s, l)
    ensures Counts(Apply(warm, s, l))
  {
  }

  lemma CallsSnoc(calls: seq<Call>, c: Call)
    requires Alternates(calls)
    requires if calls == [] then c == StartBegins else MayFollow(calls[|calls| - 1], c)
    ensures Alternates(calls + [c])
  {
  }

  lemma StepAlternates(warm: bool, s: Sys, l: Step)
    requires Exclusive(s) && Alternates(s.f.calls) && PhaseMatches(s.f.phase, s.f.calls) && Enabled(s, l)
    ensures var f := Apply(warm, s, l).f; Alternates(f.calls) && PhaseMatches(f.phase, f.calls)
  {
    var calls := s.f.calls;
    match s.f.phase {
      case Idle =>
        CallsSnoc(calls, StartBegins);
      case Starting =>
        CallsSnoc(calls, StartSucceeds);
        CallsSnoc(calls, StartFails);
      case Streaming =>
        CallsSnoc(calls, StopBegins);
      case Stopping =>
        CallsSnoc(calls, StopEnds);
        CallsSnoc(calls + [StopEnds], StartBegins);
        assert calls + [StopEnds, StartBegins] == calls + [StopEnds] + [StartBegins];
    }
  }

  lemma {:induction false} InvAlways(warm: bool, ss: seq<Sys>, ls: seq<Step>, n: nat)
    requires IsRun(warm, ss, ls) && n < |ss|
    ensures Inv(ss[n])
  {
    if n == 0 {
    } else {
      InvAlways(warm, ss, ls, n - 1);
      StepExclusive(warm, ss[n - 1], ls[n - 1]);
      StepChannelFields(warm, ss[n - 1], ls[n - 1]);
      StepStopper(warm, ss[n - 1], ls[n - 1]);
      StepWaiters(warm, ss[n - 1], ls[n - 1]);
      StepCounts(warm, ss[n - 1], ls[n - 1]);
      StepAlternates(warm, ss[n - 1], ls[n - 1]);
    }
  }

  ghost function Owners(s: Sys): set<nat> {
    set t | t in s.threads && Owns(s.threads[t])
  }

  /** In every reachable state of every interleaving: exactly one thread owns the lifecycle while
      Starting or Stopping and none otherwise; the log of callbacks alternates; stopDone is set
      exactly while Stopping, and every other channel created so far was closed exactly once. */
  lemma LifecycleExclusion(warm: bool, ss: seq<Sys>, ls: seq<Step>, n: nat)
    requires IsRun(warm, ss, ls) && n < |ss|
    ensures var s := ss[n];
            && |Owners(s)| == (if s.f.phase == Starting || s.f.phase == Stopping then 1 else 0)
            && Alternates(s.f.calls)
            && (s.f.stopDone.Some? <==> s.f.phase == Stopping)
            && (forall c: nat :: c < s.f.chans ==>
                  multiset(s.f.closed)[c] == if s.f.stopDone == Some(c) then 0 else 1)
            && (forall t :: t in s.threads && s.threads[t].Waiting? ==>
                  s.f.stopDone == s.threads[t].on || (s.threads[t].on.Some? && s.threads[t].on.value in s.f.closed))
  {
    InvAlways(warm, ss, ls, n);
    var s := ss[n];
    if s.f.phase == Starting || s.f.phase == Stopping {
      var t :| t in s.threads && Owns(s.threads[t]);
      assert Owners(s) == {t};
    } else {
      assert Owners(s) == {};
    }
    forall c: nat | c < s.f.chans ensures multiset(s.f.closed)[c] == if s.f.stopDone == Some(c) then 0 else 1 {
      CountInOrder(s.f.closed, c);
    }
    forall t | t in s.threads && s.threads[t].Waiting? && s.f.stopDone != s.threads[t].on
      ensures s.threads[t].on.value in s.f.closed
    {
      assert s.f.closed[s.threads[t].on.value] == s.threads[t].on.value;
    }
  }

  /** A waiter that wakes never waits for the same stop again: it attaches, starts the stream, or waits for a
      later one. */
  lemma WakeMakesProgress(warm: bool, ss: seq<Sys>, ls: seq<Step>, i: nat)
    requires IsRun(warm, ss, ls) && i < |ls| && ls[i].Wake?
    ensures var before, after, t := ss[i].threads, ss[i + 1].threads, ls[i].t;
            && before[t].Waiting? && before[t].on.Some?
            && (t in after ==>
                  after[t].InStart? || (after[t].Waiting? && after[t].on.Some? && after[t].on.value > before[t].on.value))
  {
    InvAlways(warm, ss, ls, i);
    var s := ss[i];
    var c := s.threads[ls[i].t].on.value;
    var k :| 0 <= k < |s.f.closed| && s.f.closed[k] == c;
  }

  lemma {:induction false} CountInOrder(q: seq<nat>, c: nat)
    requires forall i :: 0 <= i < |q| ==> q[i] == i
    ensures multiset(q)[c] == if c < |q| then 1 else 0
  {
    if q == [] {
    } else {
      var n := |q| - 1;
      assert q == q[..n] + [q[n]];
      CountInOrder(q[..n], c);
    }
  }

  lemma AlternationSeparates(calls: seq<Call>, i: nat, j: nat)
    requires Alternates(calls) && i < j < |calls|
    ensures calls[i] == StartSucceeds && calls[j] == StartSucceeds ==>
              i + 3 < j && calls[i + 1] == StopBegins && calls[i + 2] == StopEnds && calls[j - 1] == StartBegins
    ensures calls[j] == StopBegins ==> calls[j - 1] == StartSucceeds
    ensures calls[i].StartBegins? ==> calls[i + 1].StartSucceeds? || calls[i + 1].StartFails?
    ensures calls[i].StopBegins? ==> calls[i + 1].StopEnds?
  {
    assert MayFollow(calls[i], calls[i + 1]) && MayFollow(calls[j - 1], calls[j]);
    if i + 2 < |calls| {
      assert MayFollow(calls[i + 1], calls[i + 2]);
    }
  }

  /** In every interleaving: between two successful starts, however far apart, lies a whole stop; a stop
      begins only right after a successful start; and no call begins inside another. */
  lemma StartsSeparatedByStops(warm: bool, ss: seq<Sys>, ls: seq<Step>, n: nat, i: nat, j: nat)
    requires IsRun(warm, ss, ls) && n < |ss| && i < j < |ss[n].f.calls|
    ensures var calls := ss[n].f.calls;
            && (calls[i] == StartSucceeds && calls[j] == StartSucceeds ==>
                  i + 3 < j && calls[i + 1] == StopBegins && calls[i + 2] == StopEnds && calls[j - 1] == StartBegins)
            && (calls[j] == StopBegins ==> calls[j - 1] == StartSucceeds)
            && (calls[i].StartBegins? ==> calls[i + 1].StartSucceeds? || calls[i + 1].StartFails?)
            && (calls[i].StopBegins? ==> calls[i + 1].StopEnds?)
  {
    InvAlways(warm, ss, ls, n);
    AlternationSeparates(ss[n].f.calls, i, j);
  }

  // ---------- Client accounting ----------

  /** A connect whose onStart fails when every counted client has already left. */
  predicate FailsAtZero(s: Sys, l: Step) {
    l.StartDone? && !l.ok && s.f.clients == 0
  }

  lemma NegativeStep(warm: bool, s: Sys, l: Step)
    requires Inv(s) && Enabled(s, l) && s.f.clients >= 0
    ensures Apply(warm, s, l).f.clients < 0 <==> FailsAtZero(s, l)
  {
  }

  lemma {:induction false} NonNegative(warm: bool, ss: seq<Sys>, ls: seq<Step>, n: nat)
    requires IsRun(warm, ss, ls) && n < |ss|
    requires forall i :: 0 <= i < n ==> !FailsAtZero(ss[i], ls[i])
    ensures ss[n].f.clients >= 0
  {
    if n == 0 {
    } else {
      NonNegative(warm, ss, ls, n - 1);
      InvAlways(warm, ss, ls, n - 1);
      NegativeStep(warm, ss[n - 1], ls[n - 1]);
    }
  }

  /** The count is never below -1, is negative only while Idle, and a run reaches -1 if and only if
      some start fails at count 0. */
  lemma ClientCountBounds(warm: bool, ss: seq<Sys>, ls: seq<Step>)
    requires IsRun(warm, ss, ls)
    ensures forall n :: 0 <= n < |ss| ==> ss[n].f.clients >= -1 && (ss[n].f.phase != Idle ==> ss[n].f.clients >= 0)
    ensures (exists n :: 0 <= n < |ss| && ss[n].f.clients < 0)
            <==> (exists i :: 0 <= i < |ls| && FailsAtZero(ss[i], ls[i]))
  {
    forall n | 0 <= n < |ss| ensures Inv(ss[n]) {
      InvAlways(warm, ss, ls, n);
    }
    if i :| 0 <= i < |ls| && FailsAtZero(ss[i], ls[i]) {
      NegativeStep(warm, ss[i], ls[i]);
      assert ss[i + 1].f.clients < 0;
    }
    if n :| 0 <= n < |ss| && ss[n].f.clients < 0 {
      if forall i :: 0 <= i < n ==> !FailsAtZero(ss[i], ls[i]) {
        NonNegative(warm, ss, ls, n);
      }
    }
  }

  /** A disconnect at step i inside the start that is still under way at step j. */
  ghost predicate DisconnectInside(ss: seq<Sys>, ls: seq<Step>, i: nat, j: nat) {
    && i < j < |ss| && j <= |ls|
    && ls[i].Disconnect?
    && (forall m :: i <= m <= j ==> ss[m].f.phase == Starting)
  }

  lemma ZeroStep(warm: bool, s: Sys, l: Step, t: nat)
    requires Inv(s) && Enabled(s, l) && s.f.clients >= 0
    requires var s' := Apply(warm, s, l); s'.f.clients == 0 && t in s'.threads && s'.threads[t].InStart?
    ensures t in s.threads && s.threads[t].InStart? && s.f.phase == Starting
    ensures l.Disconnect? || s.f.clients == 0
  {
  }

  /** A first start at count 0 has seen a disconnect, unless the count was negative before. */
  lemma {:induction false} ZeroMeansDisconnect(warm: bool, ss: seq<Sys>, ls: seq<Step>, n: nat)
    requires IsRun(warm, ss, ls) && n < |ss|
    requires forall i :: 0 <= i <= n ==> ss[i].f.clients >= 0
    requires exists t :: t in ss[n].threads && ss[n].threads[t].InStart?
    requires ss[n].f.clients == 0
    ensures exists i: nat :: DisconnectInside(ss, ls, i, n)
  {
    var t :| t in ss[n].threads && ss[n].threads[t].InStart?;
    if n == 0 {
    } else {
      InvAlways(warm, ss, ls, n);
      InvAlways(warm, ss, ls, n - 1);
      ZeroStep(warm, ss[n - 1], ls[n - 1], t);
      if ls[n - 1].Disconnect? {
        assert DisconnectInside(ss, ls, n - 1, n);
      } else {
        ZeroMeansDisconnect(warm, ss, ls, n - 1);
        var i: nat :| DisconnectInside(ss, ls, i, n - 1);
        assert DisconnectInside(ss, ls, i, n);
      }
    }
  }

  /** The count stays non-negative in every run in which no disconnect lands inside a start that
      then fails. */
  lemma {:induction false} NonNegativeWithoutDisconnects(warm: bool, ss: seq<Sys>, ls: seq<Step>, n: nat)
    requires IsRun(warm, ss, ls) && n < |ss|
    requires forall i: nat, j: nat :: j < |ls| && ls[j].StartDone? && !ls[j].ok ==> !DisconnectInside(ss, ls, i, j)
    ensures forall i :: 0 <= i <= n ==> ss[i].f.clients >= 0
  {
    if n == 0 {
    } else {
      NonNegativeWithoutDisconnects(warm, ss, ls, n - 1);
      InvAlways(warm, ss, ls, n - 1);
      NegativeStep(warm, ss[n - 1], ls[n - 1]);
      if FailsAtZero(ss[n - 1], ls[n - 1]) {
        ZeroMeansDisconnect(warm, ss, ls, n - 1);
      }
    }
  }

  // ---------- A stream without clients is on its way to being stopped ----------

  predicate TimerPending(s: Sys) {
    s.f.armed + s.f.fired != {}
  }

  /** Streaming for nobody with no idle-timer callback left to stop it. */
  predicate Stranded(s: Sys) {
    s.f.phase == Streaming && s.f.clients == 0 && !TimerPending(s)
  }

  /** A start or restart that completes at count 0 with no callback pending. */
  predicate CompletesAtZero(s: Sys, l: Step)
    requires Enabled(s, l)
  {
    && !TimerPending(s)
    && ((l.StartDone? && l.ok && s.f.clients == 0) || (l.RestartDone? && l.ok && s.threads[l.t].saved == 0))
  }

  lemma StrandedStep(warm: bool, s: Sys, l: Step)
    requires Inv(s) && Enabled(s, l) && !Stranded(s)
    ensures Stranded(Apply(warm, s, l)) <==> CompletesAtZero(s, l)
  {
    var s' := Apply(warm, s, l);
    if l.Disconnect? && s.f.clients == 1 && s.f.phase == Streaming && warm {
      assert s.f.timers in s'.f.armed;
    }
    if l.Fire? {
      assert l.id in s'.f.fired;
    }
  }

  lemma {:induction false} NotStranded(warm: bool, ss: seq<Sys>, ls: seq<Step>, n: nat)
    requires IsRun(warm, ss, ls) && n < |ss|
    requires forall i :: 0 <= i < n ==> !CompletesAtZero(ss[i], ls[i])
    ensures !Stranded(ss[n])
  {
    if n == 0 {
    } else {
      NotStranded(warm, ss, ls, n - 1);
      InvAlways(warm, ss, ls, n - 1);
      StrandedStep(warm, ss[n - 1], ls[n - 1]);
    }
  }

  /** Exactly when a run strands the stream: some start or restart completes at count 0. */
  lemma StrandedIff(warm: bool, ss: seq<Sys>, ls: seq<Step>)
    requires IsRun(warm, ss, ls)
    ensures (exists n :: 0 <= n < |ss| && Stranded(ss[n]))
            <==> (exists i :: 0 <= i < |ls| && CompletesAtZero(ss[i], ls[i]))
  {
    if i :| 0 <= i < |ls| && CompletesAtZero(ss[i], ls[i]) {
      InvAlways(warm, ss, ls, i);
      if !Stranded(ss[i]) {
        StrandedStep(warm, ss[i], ls[i]);
        assert Stranded(ss[i + 1]);
      }
    }
    if n :| 0 <= n < |ss| && Stranded(ss[n]) {
      if forall i :: 0 <= i < n ==> !CompletesAtZero(ss[i], ls[i]) {
        NotStranded(warm, ss, ls, n);
      }
    }
  }

  /** The shortest runs that break both claims: the only client leaves while its start is under way.
      A failing start leaves -1 clients behind; a successful one streams for nobody, for ever. */
  lemma DisconnectInsideStart(ok: bool)
    ensures exists ss: seq<Sys> :: IsRun(true, ss, [Connect(0), Disconnect(1), StartDone(0, ok)]) &&
                         if ok then Stranded(ss[3]) else ss[3].f.clients == -1
  {
    var ls := [Connect(0), Disconnect(1), StartDone(0, ok)];
    var s1 := Apply(true, Init, ls[0]);
    var s2 := Apply(true, s1, ls[1]);
    var s3 := Apply(true, s2, ls[2]);
    assert IsRun(true, [Init, s1, s2, s3], ls);
  }

  /** Restarting any warm stream that nobody watches cancels its timer; when the restart succeeds
      undisturbed, the stream is stranded. */
  lemma RestartWithoutClients(s: Sys, t: nat, timer: nat)
    requires s.f.phase == Streaming && s.f.clients == 0 && t !in s.threads
    requires s.f.stopTimer == Some(timer) && s.f.armed == {timer} && s.f.fired == {}
    ensures var s1 := Apply(true, s, Restart(t));
            && Enabled(s1, RestartGoesOn(t))
            && var s2 := Apply(true, s1, RestartGoesOn(t));
            && Enabled(s2, RestartDone(t, true))
            && Stranded(Apply(true, s2, RestartDone(t, true)))
  {
    assert {timer} - {timer} == {};
  }

  /** A run that gets there: the only client leaves a warm stream. */
  lemma RestartWithoutClientsReached()
    ensures exists ss: seq<Sys> :: IsRun(true, ss, [Connect(0), StartDone(0, true), Disconnect(1)]) &&
                         var s := ss[3];
                         && s.f.phase == Streaming && s.f.clients == 0 && 0 !in s.threads
                         && s.f.stopTimer == Some(0) && s.f.armed == {0} && s.f.fired == {}
  {
    var ls := [Connect(0), StartDone(0, true), Disconnect(1)];
    var s1 := Apply(true, Init, ls[0]);
    var s2 := Apply(true, s1, ls[1]);
    var s3 := Apply(true, s2, ls[2]);
    assert IsRun(true, [Init, s1, s2, s3], ls);
    assert s3.threads == map[];
  }

  /** No disconnect inside a start, and no restart of a stream that has no clients. */
  ghost predicate Orderly(ss: seq<Sys>, ls: seq<Step>)
    requires |ss| == |ls| + 1
  {
    forall i :: 0 <= i < |ls| ==>
      && (ls[i].Disconnect? ==> ss[i].f.phase != Starting)
      && (ls[i].Restart? ==> ss[i].f.phase != Streaming || ss[i].f.clients != 0)
  }

  ghost predicate Occupied(s: Sys) {
    && s.f.clients >= 0
    && (forall t :: t in s.threads && s.threads[t].InStart? ==> s.f.clients >= 1)
    && (forall t :: t in s.threads && (s.threads[t].RestartInStop? || s.threads[t].RestartInStart?) ==>
          s.threads[t].saved >= 1)
  }

  lemma OccupiedStep(warm: bool, s: Sys, l: Step)
    requires Inv(s) && Enabled(s, l) && Occupied(s)
    requires l.Disconnect? ==> s.f.phase != Starting
    requires l.Restart? ==> s.f.phase != Streaming || s.f.clients != 0
    ensures Occupied(Apply(warm, s, l))
  {
  }

  lemma {:induction false} OccupiedAlways(warm: bool, ss: seq<Sys>, ls: seq<Step>, n: nat)
    requires IsRun(warm, ss, ls) && n < |ss| && Orderly(ss, ls)
    ensures Occupied(ss[n])
  {
    if n == 0 {
    } else {
      OccupiedAlways(warm, ss, ls, n - 1);
      InvAlways(warm, ss, ls, n - 1);
      OccupiedStep(warm, ss[n - 1], ls[n - 1]);
    }
  }

  lemma {:induction false} ColdHasNoTimers(ss: seq<Sys>, ls: seq<Step>, n: nat)
    requires IsRun(false, ss, ls) && n < |ss|
    ensures !TimerPending(ss[n])
  {
    if n == 0 {
    } else {
      ColdHasNoTimers(ss, ls, n - 1);
      assert ss[n - 1].f.armed == {} && ss[n - 1].f.fired == {};
    }
  }

  /** In orderly runs, Streaming with zero clients always has an idle-timer callback pending; without
      warm mode a stream that is up always has a client. */
  lemma IdleStreamHasTimer(warm: bool, ss: seq<Sys>, ls: seq<Step>, n: nat)
    requires IsRun(warm, ss, ls) && n < |ss| && Orderly(ss, ls)
    ensures ss[n].f.phase == Streaming && ss[n].f.clients == 0 ==> TimerPending(ss[n])
    ensures !warm && ss[n].f.phase == Streaming ==> ss[n].f.clients > 0
  {
    forall i | 0 <= i < n ensures !CompletesAtZero(ss[i], ls[i]) {
      OccupiedAlways(warm, ss, ls, i);
    }
    NotStranded(warm, ss, ls, n);
    OccupiedAlways(warm, ss, ls, n);
    if !warm {
      ColdHasNoTimers(ss, ls, n);
    }
  }

  // ---------- Restart ----------

  predicate Restarting(pc: Pc, saved: int) {
    (pc.RestartInStop? || pc.RestartInStart?) && pc.saved == saved
  }

  lemma RestartingStep(warm: bool, s: Sys, l: Step, t: nat, saved: int)
    requires Inv(s) && Enabled(s, l) && t in s.threads && Restarting(s.threads[t], saved)
    requires !(l.RestartDone? && l.t == t)
    ensures var s' := Apply(warm, s, l); t in s'.threads && Restarting(s'.threads[t], saved)
  {
  }

  lemma {:induction false} RestartUnderWay(warm: bool, ss: seq<Sys>, ls: seq<Step>, i: nat, m: nat, t: nat)
    requires IsRun(warm, ss, ls) && i < m < |ss| && ls[i] == Restart(t) && ss[i].f.phase == Streaming
    requires forall k :: i < k < m ==> !(ls[k].RestartDone? && ls[k].t == t)
    ensures t in ss[m].threads && Restarting(ss[m].threads[t], ss[i].f.clients)
  {
    if m == i + 1 {
    } else {
      RestartUnderWay(warm, ss, ls, i, m - 1, t);
      InvAlways(warm, ss, ls, m - 1);
      RestartingStep(warm, ss[m - 1], ls[m - 1], t, ss[i].f.clients);
    }
  }

  /** In every interleaving a restart that succeeds puts back the count it was entered with, whatever
      connected or disconnected meanwhile; one that fails leaves no clients. */
  lemma RestartRestoresCount(warm: bool, ss: seq<Sys>, ls: seq<Step>, i: nat, j: nat, t: nat, ok: bool)
    requires IsRun(warm, ss, ls) && i < j < |ls|
    requires ls[i] == Restart(t) && ss[i].f.phase == Streaming && ls[j] == RestartDone(t, ok)
    requires forall k :: i < k < j ==> !(ls[k].RestartDone? && ls[k].t == t)
    ensures ss[j + 1].f.clients == if ok then ss[i].f.clients else 0
    ensures ss[j + 1].f.phase == if ok then Streaming else Idle
  {
    RestartUnderWay(warm, ss, ls, i, j, t);
  }

  /** So a client that attaches inside a restart is not counted once it completes: when the clients
      counted before it leave, the stream stops under the one that came in between. */
  lemma RestartForgetsClient(s: Sys, t: nat, u: nat)
    requires s.f.phase == Streaming && s.f.clients == 1 && s.f.stopTimer.None? && t !in s.threads && u !in s.threads && t != u
    ensures var s1 := Apply(false, s, Restart(t));
            && Enabled(s1, RestartGoesOn(t))
            && var s2 := Apply(false, s1, RestartGoesOn(t));
            && Enabled(s2, Connect(u)) && ConnectOutcome(s2.f) == Attached
            && var s3 := Apply(false, s2, Connect(u));
            && Enabled(s3, RestartDone(t, true))
            && var s4 := Apply(false, s3, RestartDone(t, true));
            && s4.f.clients == 1
            && Apply(false, s4, Disconnect(t)).f.phase == Stopping
  {
  }

  /** A run that gets there: one client and an undisturbed start. */
  lemma RestartForgetsClientReached()
    ensures exists ss: seq<Sys> :: IsRun(false, ss, [Connect(0), StartDone(0, true)]) &&
                         var s := ss[2];
                         && s.f.phase == Streaming && s.f.clients == 1 && s.f.stopTimer.None?
                         && 0 !in s.threads && 1 !in s.threads
  {
    var ls := [Connect(0), StartDone(0, true)];
    var s1 := Apply(false, Init, ls[0]);
    var s2 := Apply(false, s1, ls[1]);
    assert IsRun(false, [Init, s1, s2], ls);
    assert s2.threads == map[];
  }
}
