/** One PullPoint subscription under any interleaving of pushers and pullers: one atomic step per
    region under the mutex and per channel operation. */
module PullPoint {
  import opened Seqs

  datatype MotionEvent = MotionEvent(at: int, isMotion: bool)

  /** What a subscription holds: pending events and the one-slot channel. */
  datatype Queue = Queue(events: seq<MotionEvent>, notify: bool)

  // ---------- The regions of PushEvent and PullMessages ----------

  function Appended(q: Queue, evt: MotionEvent): Queue {
    q.(events := q.events + [evt])
  }

  /** A non-blocking send: a full channel stays full. */
  function Signalled(q: Queue): Queue {
    q.(notify := true)
  }

  function TokenTaken(q: Queue): Queue {
    q.(notify := false)
  }

  function Emptied(q: Queue): Queue {
    q.(events := [])
  }

  /** Where a thread stands between its atomic steps. */
  datatype Pc =
    | Signalling            // PushEvent has appended and is about to signal
    | Waiting               // PullMessages found nothing and waits for the channel or its timer
    | Draining(woken: bool) // PullMessages is past its wait: woken by a token, or timed out

  /** The queue and the threads; then the history: every event pushed, every batch handed out in lock
      order, the signals sent and the wake-ups they caused. */
  datatype Sub = Sub(
    q: Queue, threads: map<nat, Pc>,
    pushed: seq<MotionEvent>, batches: seq<seq<MotionEvent>>, signals: nat, wakes: nat)

  const Init := Sub(Queue([], false), map[], [], [], 0, 0)

  datatype Step =
    | Append(t: nat, evt: MotionEvent)
    | Signal(t: nat)
    | Check(t: nat)
    | Wake(t: nat)
    | Timeout(t: nat)
    | Drain(t: nat)

  predicate Enabled(s: Sub, l: Step) {
    match l
    case Append(t, _) => t !in s.threads
    case Signal(t) => t in s.threads && s.threads[t].Signalling?
    case Check(t) => t !in s.threads
    case Wake(t) => t in s.threads && s.threads[t].Waiting? && s.q.notify
    case Timeout(t) => t in s.threads && s.threads[t].Waiting?
    case Drain(t) => t in s.threads && s.threads[t].Draining?
  }

  function HandOut(s: Sub): Sub {
    s.(q := Emptied(s.q), batches := s.batches + [s.q.events])
  }

  function Apply(s: Sub, l: Step): Sub
    requires Enabled(s, l)
  {
    match l
    case Append(t, evt) =>
      s.(q := Appended(s.q, evt), pushed := s.pushed + [evt], threads := s.threads[t := Signalling])
    case Signal(t) => s.(q := Signalled(s.q), threads := s.threads - {t}, signals := s.signals + 1)
    case Check(t) => if s.q.events != [] then HandOut(s) else s.(threads := s.threads[t := Waiting])
    case Wake(t) => s.(q := TokenTaken(s.q), threads := s.threads[t := Draining(true)], wakes := s.wakes + 1)
    case Timeout(t) => s.(threads := s.threads[t := Draining(false)])
    case Drain(t) => HandOut(s).(threads := s.threads - {t})
  }

  ghost predicate IsRun(ss: seq<Sub>, ls: seq<Step>) {
    && |ss| == |ls| + 1
    && ss[0] == Init
    && (forall i :: 0 <= i < |ls| ==> Enabled(ss[i], ls[i]) && ss[i + 1] == Apply(ss[i], ls[i]))
  }

  // ---------- Exactly once, in order ----------

  predicate Delivered(s: Sub) {
    Flatten(s.batches) + s.q.events == s.pushed
  }

  /** Pending events have a token, a pusher about to signal, or a puller past its wait. */
  ghost predicate Awake(s: Sub) {
    s.q.events != [] ==> s.q.notify || exists t :: t in s.threads && !s.threads[t].Waiting?
  }

  predicate Tokens(s: Sub) {
    s.wakes + (if s.q.notify then 1 else 0) <= s.signals
  }

  lemma HandOutDelivers(s: Sub)
    requires Delivered(s)
    ensures Delivered(HandOut(s))
  {
    FlattenSnoc(s.batches, s.q.events);
    assert Flatten(s.batches) + s.q.events + [] == Flatten(s.batches) + s.q.events;
  }

  lemma StepDelivers(s: Sub, l: Step)
    requires Delivered(s) && Enabled(s, l)
    ensures Delivered(Apply(s, l))
  {
    HandOutDelivers(s);
    if l.Append? {
      Assoc(Flatten(s.batches), s.q.events, [l.evt]);
    }
  }

  lemma StepAwake(s: Sub, l: Step)
    requires Awake(s) && Enabled(s, l)
    ensures Awake(Apply(s, l))
  {
    var s' := Apply(s, l);
    if s'.q.events != [] && !s'.q.notify {
      if l.Append? || l.Wake? || l.Timeout? {
        assert l.t in s'.threads && !s'.threads[l.t].Waiting?;
      }
    }
  }

  lemma {:induction false} InvAlways(ss: seq<Sub>, ls: seq<Step>, n: nat)
    requires IsRun(ss, ls) && n < |ss|
    ensures Delivered(ss[n]) && Awake(ss[n]) && Tokens(ss[n])
  {
    if n == 0 {
    } else {
      InvAlways(ss, ls, n - 1);
      StepDelivers(ss[n - 1], ls[n - 1]);
      StepAwake(ss[n - 1], ls[n - 1]);
    }
  }

  /** Across all interleavings: the batches in lock order followed by the pending events are the
      events pushed, each once and in order. */
  lemma ExactlyOnce(ss: seq<Sub>, ls: seq<Step>, n: nat)
    requires IsRun(ss, ls) && n < |ss|
    ensures Flatten(ss[n].batches) + ss[n].q.events == ss[n].pushed
  {
    InvAlways(ss, ls, n);
  }

  /** A step that some thread other than a timer can take towards handing out what is pending. */
  predicate Helps(s: Sub, l: Step) {
    Enabled(s, l) && (l.Signal? || l.Wake? || l.Drain?)
  }

  /** No wake-up is lost: while a puller waits and events are pending, some step other than a timeout
      is enabled, and it hands the events out or leaves a thread that is going to. */
  lemma NoLostWakeup(ss: seq<Sub>, ls: seq<Step>, n: nat, t: nat)
    requires IsRun(ss, ls) && n < |ss|
    requires t in ss[n].threads && ss[n].threads[t].Waiting? && ss[n].q.events != []
    ensures exists l :: Helps(ss[n], l) &&
              var s' := Apply(ss[n], l);
              s'.q.events == [] || Enabled(s', Wake(t)) || (t in s'.threads && s'.threads[t].Draining?)
  {
    InvAlways(ss, ls, n);
    var s := ss[n];
    if s.q.notify {
      assert Helps(s, Wake(t));
    } else {
      var u :| u in s.threads && !s.threads[u].Waiting?;
      if s.threads[u].Signalling? {
        assert Helps(s, Signal(u));
        assert Enabled(Apply(s, Signal(u)), Wake(t));
      } else {
        assert Helps(s, Drain(u));
      }
    }
  }

  /** Every wake-up is paid for by a signal, so no more pulls return early than events were pushed. */
  lemma WakeupsAreBounded(ss: seq<Sub>, ls: seq<Step>, n: nat)
    requires IsRun(ss, ls) && n < |ss|
    ensures ss[n].wakes <= ss[n].signals <= |ss[n].pushed|
  {
    InvAlways(ss, ls, n);
    SignalsAreBounded(ss, ls, n);
  }

  ghost function SignallingOf(s: Sub): set<nat> {
    set t | t in s.threads && s.threads[t].Signalling?
  }

  lemma SignallersStep(s: Sub, l: Step)
    requires Enabled(s, l)
    ensures var s' := Apply(s, l);
            SignallingOf(s') == if l.Append? then SignallingOf(s) + {l.t}
                                else if l.Signal? then SignallingOf(s) - {l.t} else SignallingOf(s)
  {
    var a, b := SignallingOf(s), SignallingOf(Apply(s, l));
    forall t ensures t in b <==> if l.Append? then t in a || t == l.t else if l.Signal? then t in a && t != l.t else t in a {
    }
  }

  /** Every push signals once: signals sent plus pushers about to signal are the events pushed. */
  lemma {:induction false} SignalsAreBounded(ss: seq<Sub>, ls: seq<Step>, n: nat)
    requires IsRun(ss, ls) && n < |ss|
    ensures ss[n].signals + |SignallingOf(ss[n])| == |ss[n].pushed|
  {
    if n > 0 {
      SignalsAreBounded(ss, ls, n - 1);
      SignallersStep(ss[n - 1], ls[n - 1]);
      assert ls[n - 1].Append? ==> ls[n - 1].t !in SignallingOf(ss[n - 1]);
      assert ls[n - 1].Signal? ==> ls[n - 1].t in SignallingOf(ss[n - 1]);
    } else {
      assert SignallingOf(Init) == {};
    }
  }

  // ---------- When a token outlives its events ----------

  /** A token is in the channel or about to be sent. */
  ghost predicate TokenDue(s: Sub) {
    s.q.notify || exists t :: t in s.threads && s.threads[t].Signalling?
  }

  /** A token announces events that are gone. */
  ghost predicate Stale(s: Sub) {
    s.q.events == [] && TokenDue(s)
  }

  /** The pending events are taken while their token is still due. */
  ghost predicate TakesTooEarly(s: Sub, l: Step) {
    TokenDue(s) && s.q.events != [] && (l.Check? || l.Drain?)
  }

  lemma SameSignallers(s: Sub, l: Step)
    requires Enabled(s, l) && !l.Append? && !l.Signal?
    ensures var s' := Apply(s, l);
            (exists t :: t in s'.threads && s'.threads[t].Signalling?) <==>
            (exists t :: t in s.threads && s.threads[t].Signalling?)
  {
    SignallersStep(s, l);
    var a, b := SignallingOf(s), SignallingOf(Apply(s, l));
    assert forall t :: t in a <==> t in s.threads && s.threads[t].Signalling?;
    assert forall t :: t in b <==> t in Apply(s, l).threads && Apply(s, l).threads[t].Signalling?;
  }

  lemma StaleStep(s: Sub, l: Step)
    requires Enabled(s, l) && !Stale(s)
    ensures Stale(Apply(s, l)) <==> TakesTooEarly(s, l)
  {
    if !l.Append? && !l.Signal? {
      SameSignallers(s, l);
    }
  }

  lemma {:induction false} NotStale(ss: seq<Sub>, ls: seq<Step>, n: nat)
    requires IsRun(ss, ls) && n < |ss| && forall i :: 0 <= i < n ==> !TakesTooEarly(ss[i], ls[i])
    ensures !Stale(ss[n])
  {
    if n == 0 {
    } else {
      NotStale(ss, ls, n - 1);
      StaleStep(ss[n - 1], ls[n - 1]);
    }
  }

  /** A run has a stale token if and only if some pull takes events whose token is still due. */
  lemma StaleTokenIff(ss: seq<Sub>, ls: seq<Step>)
    requires IsRun(ss, ls)
    ensures (exists n :: 0 <= n < |ss| && Stale(ss[n])) <==> (exists i :: 0 <= i < |ls| && TakesTooEarly(ss[i], ls[i]))
  {
    if i :| 0 <= i < |ls| && TakesTooEarly(ss[i], ls[i]) {
      if !Stale(ss[i]) {
        StaleStep(ss[i], ls[i]);
        assert Stale(ss[i + 1]);
      }
    }
    if n :| 0 <= n < |ss| && Stale(ss[n]) {
      if forall i :: 0 <= i < n ==> !TakesTooEarly(ss[i], ls[i]) {
        NotStale(ss, ls, n);
      }
    }
  }

  // ---------- When a pull returns empty before its timeout ----------

  /** A pull that a token woke returns without events. */
  predicate ReturnsEarlyEmpty(s: Sub, l: Step) {
    Enabled(s, l) && l.Drain? && s.threads[l.t].woken && s.q.events == []
  }

  /** Somebody else than thread t counts on the pending events: a token is due, or a woken puller is on
      its way to them. */
  ghost predicate PromisedBesides(s: Sub, t: nat) {
    TokenDue(s) || exists u :: u != t && u in s.threads && s.threads[u] == Draining(true)
  }

  /** Somebody counts on events that are gone. */
  ghost predicate Broken(s: Sub) {
    s.q.events == [] && (TokenDue(s) || exists u :: u in s.threads && s.threads[u] == Draining(true))
  }

  /** A pull takes events that somebody else counts on. */
  ghost predicate TakesPromised(s: Sub, l: Step) {
    (l.Check? || l.Drain?) && s.q.events != [] && PromisedBesides(s, l.t)
  }

  lemma TakeBreaks(s: Sub, l: Step)
    requires Enabled(s, l) && (l.Check? || l.Drain?) && s.q.events != []
    ensures Broken(Apply(s, l)) <==> PromisedBesides(s, l.t)
  {
    SameSignallers(s, l);
    var s' := Apply(s, l);
    if u :| u in s'.threads && s'.threads[u] == Draining(true) {
      assert u != l.t && s.threads[u] == Draining(true);
    }
    if u :| u != l.t && u in s.threads && s.threads[u] == Draining(true) {
      assert u in s'.threads && s'.threads[u] == Draining(true);
    }
  }

  lemma BrokenStep(s: Sub, l: Step)
    requires Enabled(s, l) && !Broken(s)
    ensures Broken(Apply(s, l)) <==> TakesPromised(s, l)
  {
    if (l.Check? || l.Drain?) && s.q.events != [] {
      TakeBreaks(s, l);
    } else if !l.Append? && !l.Signal? {
      SameSignallers(s, l);
    }
  }

  lemma {:induction false} NotBroken(ss: seq<Sub>, ls: seq<Step>, n: nat)
    requires IsRun(ss, ls) && n < |ss| && forall i :: 0 <= i < n ==> !TakesPromised(ss[i], ls[i])
    ensures !Broken(ss[n])
  {
    if n == 0 {
    } else {
      NotBroken(ss, ls, n - 1);
      BrokenStep(ss[n - 1], ls[n - 1]);
    }
  }

  /** A run breaks a promise if and only if some pull takes events that another token or another woken
      puller counts on. */
  lemma BrokenIff(ss: seq<Sub>, ls: seq<Step>)
    requires IsRun(ss, ls)
    ensures (exists n :: 0 <= n < |ss| && Broken(ss[n])) <==> (exists i :: 0 <= i < |ls| && TakesPromised(ss[i], ls[i]))
  {
    if i :| 0 <= i < |ls| && TakesPromised(ss[i], ls[i]) {
      if !Broken(ss[i]) {
        BrokenStep(ss[i], ls[i]);
        assert Broken(ss[i + 1]);
      }
    }
    if n :| 0 <= n < |ss| && Broken(ss[n]) {
      if forall i :: 0 <= i < n ==> !TakesPromised(ss[i], ls[i]) {
        NotBroken(ss, ls, n);
      }
    }
  }

  /** Within k more steps some pull can return empty before its timeout. */
  ghost predicate EarlyEmptyWithin(s: Sub, k: nat)
    decreases k
  {
    || (exists l :: ReturnsEarlyEmpty(s, l))
    || (k > 0 && exists l :: Enabled(s, l) && EarlyEmptyWithin(Apply(s, l), k - 1))
  }

  /** A fresh pull, woken by a token that announces nothing, returns empty at once. */
  lemma TokenWakesForNothing(s: Sub, t: nat)
    requires s.q == Queue([], true) && t !in s.threads
    ensures EarlyEmptyWithin(s, 2)
  {
    var s1 := Apply(s, Check(t));
    var s2 := Apply(s1, Wake(t));
    assert ReturnsEarlyEmpty(s2, Drain(t));
    assert Enabled(s1, Wake(t)) && EarlyEmptyWithin(s2, 0);
    assert Enabled(s, Check(t)) && EarlyEmptyWithin(s1, 1);
  }

  lemma {:induction false} WithinGrows(s: Sub, k: nat)
    requires EarlyEmptyWithin(s, k)
    ensures EarlyEmptyWithin(s, k + 1)
    decreases k
  {
    if exists l :: ReturnsEarlyEmpty(s, l) {
    } else {
      var l :| Enabled(s, l) && EarlyEmptyWithin(Apply(s, l), k - 1);
      WithinGrows(Apply(s, l), k - 1);
    }
  }

  /** A broken promise shows, and nothing else does: a pull that returns empty before its timeout does
      so in a broken state, and from every broken state one can within three steps. */
  lemma BrokenPromiseShows(s: Sub, t: nat)
    requires t !in s.threads
    ensures (exists l :: ReturnsEarlyEmpty(s, l)) ==> Broken(s)
    ensures Broken(s) ==> EarlyEmptyWithin(s, 3)
  {
    if l :| ReturnsEarlyEmpty(s, l) {
      assert s.threads[l.t] == Draining(true);
    }
    if Broken(s) {
      if s.q.notify {
        TokenWakesForNothing(s, t);
        WithinGrows(s, 2);
      } else if u :| u in s.threads && s.threads[u].Signalling? {
        assert Enabled(s, Signal(u));
        TokenWakesForNothing(Apply(s, Signal(u)), t);
      } else {
        var u :| u in s.threads && s.threads[u] == Draining(true);
        assert ReturnsEarlyEmpty(s, Drain(u));
      }
    }
  }
}
