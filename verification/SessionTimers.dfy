/** The warm window and shutdown: which timer callbacks may stop the stream, and what a shutdown leaves
    behind, over every interleaving of the session's transition system. */
module SessionTimers {
  import opened Seqs
  import opened Session

  // ---------- Is the warm window honoured? ----------

  predicate Pending(f: Fields, id: nat) {
    id in f.armed || id in f.fired
  }

  ghost predicate TimersBelow(f: Fields) {
    forall id: nat :: Pending(f, id) ==> id < f.timers
  }

  /** A callback other than the newest timer's may still come. */
  ghost predicate StalePending(s: Sys) {
    exists id: nat :: Pending(s.f, id) && id != s.f.timers - 1
  }

  /** The last client leaves a warm stream while an earlier callback is still to come: a new window
      opens over the old one. */
  predicate ArmsOverPending(warm: bool, s: Sys, l: Step) {
    l.Disconnect? && warm && s.f.clients == 1 && s.f.phase == Streaming && TimerPending(s)
  }

  lemma PendingStep(warm: bool, s: Sys, l: Step, id: nat)
    requires Enabled(s, l) && TimersBelow(s.f)
    ensures var f := Apply(warm, s, l).f;
            && f.timers >= s.f.timers
            && (Pending(f, id) ==> Pending(s.f, id) || id == s.f.timers < f.timers)
            && (l.Disconnect? ==> (Pending(s.f, id) ==> Pending(f, id)))
  {
  }

  lemma TimersBelowStep(warm: bool, s: Sys, l: Step)
    requires Enabled(s, l) && TimersBelow(s.f)
    ensures TimersBelow(Apply(warm, s, l).f)
  {
    var f := Apply(warm, s, l).f;
    forall id: nat | Pending(f, id) ensures id < f.timers {
      PendingStep(warm, s, l, id);
    }
  }

  lemma ArmsNew(warm: bool, s: Sys, l: Step)
    requires Enabled(s, l)
    ensures var f := Apply(warm, s, l).f;
            f.timers == if l.Disconnect? && warm && s.f.clients == 1 && s.f.phase == Streaming then s.f.timers + 1
                        else s.f.timers
  {
  }

  lemma StaleStep(warm: bool, s: Sys, l: Step)
    requires Enabled(s, l) && TimersBelow(s.f) && !StalePending(s)
    ensures StalePending(Apply(warm, s, l)) <==> ArmsOverPending(warm, s, l)
  {
    var s' := Apply(warm, s, l);
    ArmsNew(warm, s, l);
    if ArmsOverPending(warm, s, l) {
      var id :| id in s.f.armed + s.f.fired;
      assert Pending(s.f, id);
      PendingStep(warm, s, l, id);
      assert Pending(s'.f, id) && id != s'.f.timers - 1;
    } else {
      forall id: nat | Pending(s'.f, id) ensures id == s'.f.timers - 1 {
        PendingStep(warm, s, l, id);
        assert Pending(s.f, id) ==> id in s.f.armed + s.f.fired;
      }
    }
  }

  lemma {:induction false} BelowAlways(warm: bool, ss: seq<Sys>, ls: seq<Step>, n: nat)
    requires IsRun(warm, ss, ls) && n < |ss|
    ensures TimersBelow(ss[n].f)
  {
    if n == 0 {
    } else {
      BelowAlways(warm, ss, ls, n - 1);
      TimersBelowStep(warm, ss[n - 1], ls[n - 1]);
    }
  }

  /** No window was opened over a pending callback in the first n steps. */
  ghost predicate NoOverlap(warm: bool, ss: seq<Sys>, ls: seq<Step>, n: nat)
    requires n <= |ls| && n <= |ss|
  {
    forall i :: 0 <= i < n ==> !ArmsOverPending(warm, ss[i], ls[i])
  }

  lemma {:induction false} NotStale(warm: bool, ss: seq<Sys>, ls: seq<Step>, n: nat)
    requires IsRun(warm, ss, ls) && n < |ss| && NoOverlap(warm, ss, ls, n)
    ensures !StalePending(ss[n])
  {
    if n == 0 {
    } else {
      NotStale(warm, ss, ls, n - 1);
      BelowAlways(warm, ss, ls, n - 1);
      StaleStep(warm, ss[n - 1], ls[n - 1]);
    }
  }

  /** A run has a stale callback pending if and only if some last client left a warm stream while an
      earlier callback was still to come. */
  lemma StaleCallbackIff(warm: bool, ss: seq<Sys>, ls: seq<Step>)
    requires IsRun(warm, ss, ls)
    ensures (exists n :: 0 <= n < |ss| && StalePending(ss[n]))
            <==> (exists i :: 0 <= i < |ls| && ArmsOverPending(warm, ss[i], ls[i]))
  {
    if i :| 0 <= i < |ls| && ArmsOverPending(warm, ss[i], ls[i]) {
      BelowAlways(warm, ss, ls, i);
      if !StalePending(ss[i]) {
        StaleStep(warm, ss[i], ls[i]);
        assert StalePending(ss[i + 1]);
      }
    }
    if n :| 0 <= n < |ss| && StalePending(ss[n]) {
      if NoOverlap(warm, ss, ls, n) {
        NotStale(warm, ss, ls, n);
      }
    }
  }

  /** Unless a window was opened over a pending callback, only the newest timer, the one armed by the
      last disconnect, ever stops the stream: the warm window is honoured in full. */
  lemma TimelyStops(warm: bool, ss: seq<Sys>, ls: seq<Step>, n: nat)
    requires IsRun(warm, ss, ls) && n < |ls| && NoOverlap(warm, ss, ls, n)
    ensures ls[n].TimerRuns? && TimerStops(ss[n].f) ==> ls[n].id == ss[n].f.timers - 1
  {
    NotStale(warm, ss, ls, n);
    if ls[n].TimerRuns? {
      assert Pending(ss[n].f, ls[n].id);
    }
  }

  /** And every window opened over a pending callback can be cut short: the old callback, once it runs,
      stops the stream while the new timer is still armed, and forgets that timer, so that no connect can
      cancel it any more. */
  lemma OverlapCutsShort(s: Sys, l: Step, t: nat)
    requires Enabled(s, l) && TimersBelow(s.f) && ArmsOverPending(true, s, l) && t !in s.threads
    ensures var s1 := Apply(true, s, l);
            exists stale: nat :: Pending(s1.f, stale) && stale < s1.f.timers - 1 &&
              var s2 := if stale in s1.f.fired then s1 else Apply(true, s1, Fire(stale));
              && Enabled(s2, TimerRuns(t, stale))
              && var s3 := Apply(true, s2, TimerRuns(t, stale));
              && s3.f.phase == Stopping && s3.f.timers - 1 in s3.f.armed
              && s3.f.timers - 1 in ConnectRegion(s3.f).armed
  {
    var stale: nat :| stale in s.f.armed + s.f.fired;
    assert Pending(s.f, stale);
    var s1 := Apply(true, s, l);
    PendingStep(true, s, l, stale);
    ArmsNew(true, s, l);
    assert Pending(s1.f, stale) && stale < s1.f.timers - 1;
  }

  /** A timer that was set and is not armed any more, or not even waiting for its callback. */
  predicate Spent(f: Fields, id: nat, gone: bool) {
    id < f.timers && id !in f.armed && (gone ==> id !in f.fired)
  }

  predicate Apart(f: Fields) {
    f.armed !! f.fired
  }

  lemma SpentStep(warm: bool, s: Sys, l: Step, id: nat, gone: bool)
    requires Enabled(s, l) && TimersBelow(s.f)
    ensures Apart(s.f) ==> Apart(Apply(warm, s, l).f)
    ensures Spent(s.f, id, gone) ==> Spent(Apply(warm, s, l).f, id, gone)
  {
    var f := Apply(warm, s, l).f;
    assert s.f.timers in s.f.fired ==> Pending(s.f, s.f.timers);
  }

  lemma {:induction false} ApartAlways(warm: bool, ss: seq<Sys>, ls: seq<Step>, n: nat)
    requires IsRun(warm, ss, ls) && n < |ss|
    ensures Apart(ss[n].f)
  {
    if n == 0 {
    } else {
      ApartAlways(warm, ss, ls, n - 1);
      BelowAlways(warm, ss, ls, n - 1);
      SpentStep(warm, ss[n - 1], ls[n - 1], 0, true);
    }
  }

  lemma {:induction false} StaysSpent(warm: bool, ss: seq<Sys>, ls: seq<Step>, i: nat, j: nat, id: nat, gone: bool)
    requires IsRun(warm, ss, ls) && i <= j < |ss| && Spent(ss[i].f, id, gone)
    ensures Spent(ss[j].f, id, gone)
  {
    if j == i {
    } else {
      StaysSpent(warm, ss, ls, i, j - 1, id, gone);
      BelowAlways(warm, ss, ls, j - 1);
      SpentStep(warm, ss[j - 1], ls[j - 1], id, gone);
    }
  }

  /** In every run each timer fires at most once, and its callback runs at most once. */
  lemma CallbacksRunOnce(warm: bool, ss: seq<Sys>, ls: seq<Step>, i: nat, j: nat)
    requires IsRun(warm, ss, ls) && i < j < |ls|
    ensures ls[i].Fire? && ls[j].Fire? ==> ls[i].id != ls[j].id
    ensures ls[i].TimerRuns? && (ls[j].TimerRuns? || ls[j].Fire?) ==> ls[i].id != ls[j].id
  {
    BelowAlways(warm, ss, ls, i);
    ApartAlways(warm, ss, ls, i);
    if ls[i].Fire? {
      assert Pending(ss[i].f, ls[i].id);
      StaysSpent(warm, ss, ls, i + 1, j, ls[i].id, false);
    } else if ls[i].TimerRuns? {
      assert Pending(ss[i].f, ls[i].id);
      StaysSpent(warm, ss, ls, i + 1, j, ls[i].id, true);
    }
  }

  /** For instance, from any unwatched warm stream whose timer has fired: a client connects and leaves
      again while the callback waits, and the old callback ends the new window at once. */
  lemma StaleCallbackStops(s: Sys, stale: nat, t: nat)
    requires s.f.phase == Streaming && s.f.clients == 0 && s.f.fired == {stale} && s.f.armed == {} && stale < s.f.timers
    requires t !in s.threads
    ensures var s1 := Apply(true, s, Connect(t));
            && Enabled(s1, Disconnect(t))
            && var s2 := Apply(true, s1, Disconnect(t));
            && s2.f.timers - 1 in s2.f.armed
            && Enabled(s2, TimerRuns(t, stale))
            && Apply(true, s2, TimerRuns(t, stale)).f.phase == Stopping
  {
  }

  /** A run that gets to such a stream. */
  lemma StaleCallbackReached()
    ensures exists ss: seq<Sys> :: IsRun(true, ss, [Connect(0), StartDone(0, true), Disconnect(1), Fire(0)]) &&
                         var s := ss[4];
                         && s.f.phase == Streaming && s.f.clients == 0 && s.f.fired == {0} && s.f.armed == {}
                         && s.f.timers == 1 && 0 !in s.threads
  {
    var ls := [Connect(0), StartDone(0, true), Disconnect(1), Fire(0)];
    var s1 := Apply(true, Init, ls[0]);
    var s2 := Apply(true, s1, ls[1]);
    var s3 := Apply(true, s2, ls[2]);
    var s4 := Apply(true, s3, ls[3]);
    assert IsRun(true, [Init, s1, s2, s3, s4], ls);
    assert s4.threads == map[];
  }

  // ---------- Connects that keep the window ----------

  /** Every armed timer is the one the session remembers, and none is armed beside a fired one. */
  ghost predicate Tracked(f: Fields) {
    && (forall id :: id in f.armed ==> f.stopTimer == Some(id))
    && (f.armed == {} || f.fired == {})
  }

  lemma TrackedStep(warm: bool, s: Sys, l: Step)
    requires Enabled(s, l) && Tracked(s.f) && !ArmsOverPending(warm, s, l)
    ensures Tracked(Apply(warm, s, l).f)
  {
    var f := Apply(warm, s, l).f;
    if l.Fire? {
      assert forall id :: id in s.f.armed ==> id == l.id;
      assert f.armed == {};
    }
  }

  lemma {:induction false} TrackedAlways(warm: bool, ss: seq<Sys>, ls: seq<Step>, n: nat)
    requires IsRun(warm, ss, ls) && n < |ss| && NoOverlap(warm, ss, ls, n)
    ensures Tracked(ss[n].f)
  {
    if n == 0 {
    } else {
      TrackedAlways(warm, ss, ls, n - 1);
      TrackedStep(warm, ss[n - 1], ls[n - 1]);
    }
  }

  predicate Unwatched(s: Sys) {
    TimerPending(s) ==> s.f.clients <= 0
  }

  ghost predicate NobodySaved(s: Sys) {
    TimerPending(s) ==> forall t :: t in s.threads && (s.threads[t].RestartInStop? || s.threads[t].RestartInStart?) ==>
      s.threads[t].saved <= 0
  }

  lemma ConnectCancels(f: Fields)
    requires Tracked(f) && f.fired == {}
    ensures ConnectRegion(f).armed == {} && ConnectRegion(f).fired == {}
  {
  }

  lemma QuietStep(warm: bool, s: Sys, l: Step)
    requires Inv(s) && Enabled(s, l) && Tracked(s.f) && Unwatched(s) && NobodySaved(s)
    requires l.Connect? || l.Wake? ==> s.f.fired == {}
    ensures !ArmsOverPending(warm, s, l)
    ensures Unwatched(Apply(warm, s, l)) && NobodySaved(Apply(warm, s, l))
  {
    if l.Connect? || l.Wake? {
      ConnectCancels(s.f);
    }
  }

  lemma {:induction false} QuietAlways(warm: bool, ss: seq<Sys>, ls: seq<Step>, n: nat)
    requires IsRun(warm, ss, ls) && n < |ss|
    requires forall i :: 0 <= i < n && (ls[i].Connect? || ls[i].Wake?) ==> ss[i].f.fired == {}
    ensures Unwatched(ss[n]) && NobodySaved(ss[n]) && NoOverlap(warm, ss, ls, n)
  {
    if n == 0 {
    } else {
      QuietAlways(warm, ss, ls, n - 1);
      InvAlways(warm, ss, ls, n - 1);
      TrackedAlways(warm, ss, ls, n - 1);
      QuietStep(warm, ss[n - 1], ls[n - 1]);
    }
  }

  /** Connects keep the window if none comes in while a fired callback waits for the mutex. */
  lemma QuietConnectsKeepTheWindow(warm: bool, ss: seq<Sys>, ls: seq<Step>, n: nat)
    requires IsRun(warm, ss, ls) && n < |ss|
    requires forall i :: 0 <= i < n && (ls[i].Connect? || ls[i].Wake?) ==> ss[i].f.fired == {}
    ensures NoOverlap(warm, ss, ls, n) && !StalePending(ss[n])
  {
    QuietAlways(warm, ss, ls, n);
    NotStale(warm, ss, ls, n);
  }

  // ---------- Shutdown ----------

  predicate StoppedBy(s: Sys, t: nat) {
    && s.f.phase == Stopping && s.f.clients == 0 && s.f.stopTimer.None?
    && t in s.threads && s.threads[t].InStop?
  }

  lemma StoppedByStep(warm: bool, s: Sys, l: Step, t: nat)
    requires Inv(s) && Enabled(s, l) && StoppedBy(s, t) && l != StopDone(t)
    ensures var s' := Apply(warm, s, l); StoppedBy(s', t) && s'.f.armed <= s.f.armed
  {
  }

  lemma {:induction false} StopUnderWay(warm: bool, ss: seq<Sys>, ls: seq<Step>, i: nat, m: nat, t: nat)
    requires IsRun(warm, ss, ls) && i < m < |ss| && ls[i] == Shutdown(t) && ss[i].f.phase == Streaming
    requires forall k :: i < k < m ==> ls[k] != StopDone(t)
    ensures StoppedBy(ss[m], t) && ss[m].f.armed <= CancelTimer(ss[i].f).armed
  {
    if m == i + 1 {
    } else {
      StopUnderWay(warm, ss, ls, i, m - 1, t);
      InvAlways(warm, ss, ls, m - 1);
      StoppedByStep(warm, ss[m - 1], ls[m - 1], t);
    }
  }

  /** From a shutdown of a stream that is up to the end of its onStop, whatever runs in between: the
      session stays Stopping without clients, and then it is Idle without clients. No timer stays
      armed, unless some window was opened over a pending callback before. */
  lemma ShutdownQuiesces(warm: bool, ss: seq<Sys>, ls: seq<Step>, i: nat, j: nat, t: nat)
    requires IsRun(warm, ss, ls) && i < j < |ls|
    requires ls[i] == Shutdown(t) && ss[i].f.phase == Streaming && ls[j] == StopDone(t)
    requires forall k :: i < k < j ==> ls[k] != StopDone(t)
    ensures forall m :: i < m <= j ==> ss[m].f.phase == Stopping && ss[m].f.clients == 0 && ss[m].f.stopTimer.None?
    ensures ss[j + 1].f.phase == Idle && ss[j + 1].f.clients == 0
    ensures NoOverlap(warm, ss, ls, i) ==> forall m :: i < m <= j + 1 ==> ss[m].f.armed == {}
  {
    forall m | i < m <= j ensures StoppedBy(ss[m], t) && ss[m].f.armed <= CancelTimer(ss[i].f).armed {
      StopUnderWay(warm, ss, ls, i, m, t);
    }
    if NoOverlap(warm, ss, ls, i) {
      TrackedAlways(warm, ss, ls, i);
      assert CancelTimer(ss[i].f).armed == {};
    }
  }

  predicate Completes(l: Step) {
    l.StartDone? || l.RestartDone?
  }

  lemma StartingStep(warm: bool, s: Sys, l: Step)
    requires Inv(s) && Enabled(s, l) && s.f.phase == Starting
    ensures Apply(warm, s, l).f.phase == if !Completes(l) then Starting else if l.ok then Streaming else Idle
  {
  }

  lemma {:induction false} StartUnderWay(warm: bool, ss: seq<Sys>, ls: seq<Step>, i: nat, m: nat)
    requires IsRun(warm, ss, ls) && i <= m < |ss| && ss[i].f.phase == Starting
    requires forall k :: i <= k < m ==> !Completes(ls[k])
    ensures ss[m].f.phase == Starting
  {
    if m == i {
    } else {
      StartUnderWay(warm, ss, ls, i, m - 1);
      InvAlways(warm, ss, ls, m - 1);
      StartingStep(warm, ss[m - 1], ls[m - 1]);
    }
  }

  /** A shutdown during a start only cancels the idle timer: the clients stay counted, the start runs to
      its end in every interleaving, and if it succeeds the stream is up after the shutdown. */
  lemma ShutdownMissesStart(warm: bool, ss: seq<Sys>, ls: seq<Step>, i: nat, j: nat, t: nat)
    requires IsRun(warm, ss, ls) && i < j < |ls| && ls[i] == Shutdown(t) && ss[i].f.phase == Starting
    requires Completes(ls[j]) && forall k :: i < k < j ==> !Completes(ls[k])
    ensures ss[i + 1] == ss[i].(f := CancelTimer(ss[i].f))
    ensures forall m :: i < m <= j ==> ss[m].f.phase == Starting
    ensures ss[j + 1].f.phase == if ls[j].ok then Streaming else Idle
  {
    forall m | i < m <= j ensures ss[m].f.phase == Starting {
      StartUnderWay(warm, ss, ls, i, m);
    }
    InvAlways(warm, ss, ls, j);
    StartingStep(warm, ss[j], ls[j]);
  }
}
