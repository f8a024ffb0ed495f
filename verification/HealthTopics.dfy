/** What the broker retains: the state and attribute topics of both sensors, compared with the machine
    behind them in every run. */
module HealthTopics {
  import opened Health
  import opened Seqs

  // ---------- Published states ----------

  predicate StatesKept(c: Cam) {
    && (c.pubProblem.Some? ==> c.pubProblem.value == c.stream.problem)
    && (c.pubDegraded.Some? ==> c.pubDegraded.value == c.drop.degraded)
  }

  lemma StatesStep(cfg: Config, c: Cam, e: Event)
    requires StatesKept(c)
    ensures var r := Step(cfg, c, e);
            && StatesKept(r)
            && (r.pubProblem.Some? <==> c.pubProblem.Some? || e.Connected? || r.stream.problem != c.stream.problem)
            && (r.pubDegraded.Some? <==> c.pubDegraded.Some? || e.Connected? || r.drop.degraded != c.drop.degraded)
  {
  }

  /** Event i publishes on the state topic of the drop or the stream sensor. */
  ghost predicate Publishes(cfg: Config, t0: int, evs: seq<Event>, drops: bool, i: int) {
    0 <= i < |evs| && (evs[i].Connected? || Flips(cfg, t0, evs, drops, i))
  }

  ghost predicate EverPublished(cfg: Config, t0: int, evs: seq<Event>, drops: bool) {
    exists i :: Publishes(cfg, t0, evs, drops, i)
  }

  lemma PublishesPrefix(cfg: Config, t0: int, evs: seq<Event>, drops: bool, i: int)
    requires evs != [] && 0 <= i < |evs| - 1
    ensures Publishes(cfg, t0, evs, drops, i) <==> Publishes(cfg, t0, evs[..|evs| - 1], drops, i)
  {
    var init := evs[..|evs| - 1];
    assert init[..i] == evs[..i] && init[..i + 1] == evs[..i + 1];
  }

  lemma EverPublishedSnoc(cfg: Config, t0: int, evs: seq<Event>, drops: bool)
    requires evs != []
    ensures var n := |evs| - 1;
            EverPublished(cfg, t0, evs, drops) <==>
              EverPublished(cfg, t0, evs[..n], drops) || Publishes(cfg, t0, evs, drops, n)
  {
    var n := |evs| - 1;
    if EverPublished(cfg, t0, evs[..n], drops) {
      var i :| Publishes(cfg, t0, evs[..n], drops, i);
      PublishesPrefix(cfg, t0, evs, drops, i);
    }
    if EverPublished(cfg, t0, evs, drops) && !Publishes(cfg, t0, evs, drops, n) {
      var i :| Publishes(cfg, t0, evs, drops, i);
      PublishesPrefix(cfg, t0, evs, drops, i);
    }
  }

  /** Nothing stale is ever on a state topic, and something is there exactly from the first connect or change
      of the flag on. */
  lemma {:induction false} PublishedIsCurrent(cfg: Config, t0: int, evs: seq<Event>)
    ensures var c := Run(cfg, t0, evs);
            && (c.pubProblem.Some? ==> c.pubProblem.value == c.stream.problem)
            && (c.pubDegraded.Some? ==> c.pubDegraded.value == c.drop.degraded)
            && (c.pubProblem.Some? <==> EverPublished(cfg, t0, evs, false))
            && (c.pubDegraded.Some? <==> EverPublished(cfg, t0, evs, true))
  {
    if evs == [] {
    } else {
      var n := |evs| - 1;
      PublishedIsCurrent(cfg, t0, evs[..n]);
      StatesStep(cfg, Run(cfg, t0, evs[..n]), evs[n]);
      EverPublishedSnoc(cfg, t0, evs, false);
      EverPublishedSnoc(cfg, t0, evs, true);
      assert evs[..n + 1] == evs;
    }
  }

  // ---------- Attributes ----------

  function LastError(evs: seq<Event>): string {
    if evs == [] then ""
    else match evs[|evs| - 1]
         case Started(_) => ""
         case Failed(_, text) => text
         case _ => LastError(evs[..|evs| - 1])
  }

  /** The drop fields are those of the last sample, if there is one: the share of its packets that was lost,
      and its dropped frames. */
  predicate Reads(d: Drop, ss: seq<Sample>) {
    if ss == [] then d.lastLoss == 0.0 && d.lastDropped == 0
    else
      var s := ss[|ss| - 1];
      && d.lastLoss * (s.packets + s.drops) as real == s.drops as real
      && (d.lastLoss == 0.0 <==> s.drops == 0)
      && d.lastDropped == s.droppedFrames
  }

  lemma ReadsStep(cfg: Config, c: Cam, e: Event, ss: seq<Sample>)
    requires Reads(c.drop, ss)
    ensures var r := Step(cfg, c, e).drop;
            match e
            case Started(_) => Reads(r, [])
            case Stats(now, packets, drops, dropped) => Reads(r, ss + [Sample(packets, drops, dropped, now)])
            case _ => Reads(r, ss)
  {
  }

  /** The fields behind the attributes are the latest readings: the last failure since the last success
      and the last sample since the last start. */
  lemma {:induction false} FieldsAreLatest(cfg: Config, t0: int, evs: seq<Event>)
    ensures var c := Run(cfg, t0, evs); c.stream.lastError == LastError(evs) && Reads(c.drop, Samples(evs))
  {
    if evs == [] {
    } else {
      var n := |evs| - 1;
      FieldsAreLatest(cfg, t0, evs[..n]);
      ReadsStep(cfg, Run(cfg, t0, evs[..n]), evs[n], Samples(evs[..n]));
    }
  }

  // ---------- The retained attributes of the stream sensor ----------

  predicate WritesAttributes(e: Event) {
    e.Started? || e.Failed? || e.Connected?
  }

  /** The tick at i raised the flag, and no attributes were published since. */
  ghost predicate RaisedUnseen(cfg: Config, t0: int, evs: seq<Event>, i: int) {
    && 0 <= i < |evs| && evs[i].Tick?
    && !Run(cfg, t0, evs[..i]).stream.problem && Run(cfg, t0, evs[..i + 1]).stream.problem
    && (forall j :: i < j < |evs| ==> !WritesAttributes(evs[j]))
  }

  ghost predicate SomeRaisedUnseen(cfg: Config, t0: int, evs: seq<Event>) {
    exists i :: RaisedUnseen(cfg, t0, evs, i)
  }

  lemma RaisedPrefix(cfg: Config, t0: int, evs: seq<Event>, e: Event, i: int)
    requires 0 <= i < |evs|
    ensures RaisedUnseen(cfg, t0, evs + [e], i) <==> RaisedUnseen(cfg, t0, evs, i) && !WritesAttributes(e)
  {
    var all := evs + [e];
    assert all[..i] == evs[..i] && all[..i + 1] == evs[..i + 1];
    assert all[|evs|] == e && forall j :: 0 <= j < |evs| ==> all[j] == evs[j];
  }

  lemma RaisedLast(cfg: Config, t0: int, evs: seq<Event>, e: Event)
    ensures RaisedUnseen(cfg, t0, evs + [e], |evs|) <==>
              e.Tick? && !Run(cfg, t0, evs).stream.problem && Run(cfg, t0, evs + [e]).stream.problem
  {
    var all := evs + [e];
    assert all[..|evs|] == evs && all[..|evs| + 1] == all;
  }

  lemma RaisedSnoc(cfg: Config, t0: int, evs: seq<Event>, e: Event)
    ensures SomeRaisedUnseen(cfg, t0, evs + [e]) <==>
              !WritesAttributes(e) &&
              (SomeRaisedUnseen(cfg, t0, evs) ||
               (e.Tick? && !Run(cfg, t0, evs).stream.problem && Run(cfg, t0, evs + [e]).stream.problem))
  {
    RaisedLast(cfg, t0, evs, e);
    if SomeRaisedUnseen(cfg, t0, evs + [e]) {
      var i :| RaisedUnseen(cfg, t0, evs + [e], i);
      if i < |evs| {
        RaisedPrefix(cfg, t0, evs, e, i);
      }
    }
    if SomeRaisedUnseen(cfg, t0, evs) {
      var i :| RaisedUnseen(cfg, t0, evs, i);
      RaisedPrefix(cfg, t0, evs, e, i);
    }
  }

  /** What ties the retained attributes to the fields. */
  predicate AttrsKept(c: Cam, unseen: bool) {
    && (unseen ==> c.stream.problem)
    && (!c.stream.problem && c.stream.firstFail.Some? ==> c.stream.since <= c.stream.firstFail.value)
    && (c.pubAttrs.Some? ==>
          && c.pubAttrs.value.failures == c.stream.failCount
          && c.pubAttrs.value.lastError == c.stream.lastError
          && if unseen then c.pubAttrs.value.since < c.stream.since else c.pubAttrs.value.since == c.stream.since)
  }

  lemma AttrsStep(cfg: Config, t0: int, c: Cam, before: int, e: Event, unseen: bool)
    requires cfg.wedgeAfter > 0 && AttrsKept(c, unseen) && InThePast(t0, c, before) && before <= e.now
    ensures var c' := Step(cfg, c, e);
            AttrsKept(c', !WritesAttributes(e) && (unseen || (e.Tick? && !c.stream.problem && c'.stream.problem)))
  {
  }

  function LastTime(t0: int, evs: seq<Event>): int {
    if evs == [] then t0 else evs[|evs| - 1].now
  }

  lemma {:induction false} AttrsAlways(cfg: Config, t0: int, evs: seq<Event>)
    requires cfg.wedgeAfter > 0 && ClockRuns(t0, evs)
    ensures AttrsKept(Run(cfg, t0, evs), SomeRaisedUnseen(cfg, t0, evs))
  {
    if evs == [] {
    } else {
      var n := |evs| - 1;
      var init, e := evs[..n], evs[n];
      assert init + [e] == evs;
      AttrsAlways(cfg, t0, init);
      StartsAreInThePast(cfg, t0, init);
      RaisedSnoc(cfg, t0, init, e);
      AttrsStep(cfg, t0, Run(cfg, t0, init), LastTime(t0, init), e, SomeRaisedUnseen(cfg, t0, init));
    }
  }

  lemma {:induction false} AttrsPresent(cfg: Config, t0: int, evs: seq<Event>)
    ensures Run(cfg, t0, evs).pubAttrs.Some? <==> exists i :: 0 <= i < |evs| && WritesAttributes(evs[i])
  {
    if evs == [] {
    } else {
      var n := |evs| - 1;
      AttrsPresent(cfg, t0, evs[..n]);
      if i :| 0 <= i < |evs| && WritesAttributes(evs[i]) && i < n {
        assert WritesAttributes(evs[..n][i]);
      }
    }
  }

  /** The failure count and the error on the attribute topic are always current. Its since-time is current
      unless a tick raised the flag and no result or connect came after: then, and only then, the topic
      shows an earlier time. */
  lemma SinceIsCurrentIff(cfg: Config, t0: int, evs: seq<Event>)
    requires cfg.wedgeAfter > 0 && ClockRuns(t0, evs)
    ensures var c := Run(cfg, t0, evs);
            && (c.pubAttrs.Some? <==> exists i :: 0 <= i < |evs| && WritesAttributes(evs[i]))
            && (c.pubAttrs.Some? ==>
                  && c.pubAttrs.value.failures == c.stream.failCount
                  && c.pubAttrs.value.lastError == LastError(evs)
                  && c.pubAttrs.value.since <= c.stream.since
                  && (c.pubAttrs.value.since != c.stream.since <==> SomeRaisedUnseen(cfg, t0, evs)))
  {
    AttrsAlways(cfg, t0, evs);
    AttrsPresent(cfg, t0, evs);
    FieldsAreLatest(cfg, t0, evs);
  }

  /** So it is with a single failed start that the first tick WedgeAfter later flags: the topic still
      shows the reporter's own start as the time of the change. */
  lemma TickRaisesUnseen(cfg: Config, t0: int, failedAt: int, tickAt: int, errText: string)
    requires Usable(cfg) && t0 <= failedAt && tickAt - failedAt >= cfg.wedgeAfter
    ensures var evs := [Failed(failedAt, errText), Tick(tickAt)];
            var c := Run(cfg, t0, evs);
            && c.stream.problem && c.stream.since == tickAt
            && c.pubAttrs == Some(Attrs(1, t0, errText)) && SomeRaisedUnseen(cfg, t0, evs)
  {
    var first := [Failed(failedAt, errText)];
    RunSnoc(cfg, t0, [], Failed(failedAt, errText));
    RunSnoc(cfg, t0, first, Tick(tickAt));
    RaisedSnoc(cfg, t0, first, Tick(tickAt));
    assert [] + first == first && first + [Tick(tickAt)] == [Failed(failedAt, errText), Tick(tickAt)];
  }

  // ---------- The retained attributes of the drop sensor ----------

  predicate MayWriteDropAttributes(e: Event) {
    e.Stats? || e.Connected?
  }

  /** Event j after the write at event k - 1 did not have to write again. */
  ghost predicate NotDue(cfg: Config, t0: int, evs: seq<Event>, k: nat, j: nat)
    requires 0 < k <= j < |evs|
  {
    && !evs[j].Connected?
    && (evs[j].Stats? ==> evs[j].now - evs[k - 1].now < 15_000_000_000 && !Flips(cfg, t0, evs, true, j))
  }

  /** The topic retains what event k - 1 left, and no event since had to write. */
  ghost predicate Retained(cfg: Config, t0: int, evs: seq<Event>, k: nat) {
    && 0 < k <= |evs| && MayWriteDropAttributes(evs[k - 1])
    && (var d := Run(cfg, t0, evs[..k]).drop;
        Run(cfg, t0, evs).pubDropAttrs == Some(DropAttrs(d.lastLoss, d.lastDropped, d.since)))
    && (forall j :: k <= j < |evs| ==> NotDue(cfg, t0, evs, k, j))
  }

  predicate NoStart(evs: seq<Event>, k: nat)
    requires k <= |evs|
  {
    forall j :: k <= j < |evs| ==> !evs[j].Started?
  }

  /** The state of the drop attributes after evs; k is only meant where something is retained. */
  ghost predicate DropTopic(cfg: Config, t0: int, evs: seq<Event>, k: nat) {
    var c := Run(cfg, t0, evs);
    && (c.pubDropAttrs.Some? ==>
          Retained(cfg, t0, evs, k) && (NoStart(evs, k) ==> c.drop.since == c.pubDropAttrs.value.since))
    && (c.lastDropPub.Some? ==> c.pubDropAttrs.Some? && c.lastDropPub.value <= evs[k - 1].now)
  }

  lemma NotDueSnoc(cfg: Config, t0: int, evs: seq<Event>, e: Event, k: nat)
    requires Retained(cfg, t0, evs, k) && !e.Connected?
    requires e.Stats? ==> e.now - evs[k - 1].now < 15_000_000_000
    requires e.Stats? ==> Run(cfg, t0, evs + [e]).drop.degraded == Run(cfg, t0, evs).drop.degraded
    ensures var all := evs + [e]; forall j :: k <= j < |all| ==> NotDue(cfg, t0, all, k, j)
  {
    var all, n := evs + [e], |evs|;
    forall j | k <= j < |all| ensures NotDue(cfg, t0, all, k, j) {
      if j < n {
        assert NotDue(cfg, t0, evs, k, j);
        assert all[..j] == evs[..j] && all[..j + 1] == evs[..j + 1];
      } else {
        assert all[..n] == evs && all[..n + 1] == all;
      }
    }
  }

  predicate Writes(c: Cam, cfg: Config, e: Event) {
    match e
    case Stats(now, packets, drops, dropped) => Due(c, ApplyStats(cfg, c.drop, LossFraction(packets, drops), dropped, now), now)
    case Connected(_) => true
    case _ => false
  }

  lemma WriteStep(cfg: Config, t0: int, evs: seq<Event>, e: Event, k: nat)
    requires DropTopic(cfg, t0, evs, k) && Writes(Run(cfg, t0, evs), cfg, e)
    requires evs != [] ==> evs[|evs| - 1].now <= e.now
    requires forall j :: 0 <= j < |evs| ==> evs[j].now <= e.now
    ensures DropTopic(cfg, t0, evs + [e], |evs| + 1)
  {
    var all := evs + [e];
    RunSnoc(cfg, t0, evs, e);
    assert all[..|evs| + 1] == all;
  }

  lemma KeepStep(cfg: Config, t0: int, evs: seq<Event>, e: Event, k: nat)
    requires DropTopic(cfg, t0, evs, k) && !Writes(Run(cfg, t0, evs), cfg, e)
    ensures DropTopic(cfg, t0, evs + [e], k)
  {
    var all, c := evs + [e], Run(cfg, t0, evs);
    RunSnoc(cfg, t0, evs, e);
    if c.pubDropAttrs.Some? {
      assert all[..k] == evs[..k];
      NotDueSnoc(cfg, t0, evs, e, k);
      assert NoStart(all, k) ==> NoStart(evs, k) && !all[|evs|].Started?;
    }
  }

  lemma {:induction false} DropTopicAlways(cfg: Config, t0: int, evs: seq<Event>) returns (k: nat)
    requires ClockRuns(t0, evs)
    ensures DropTopic(cfg, t0, evs, k)
  {
    k := 0;
    if evs == [] {
    } else {
      var n := |evs| - 1;
      var init, e := evs[..n], evs[n];
      assert init + [e] == evs;
      k := DropTopicAlways(cfg, t0, init);
      if Writes(Run(cfg, t0, init), cfg, e) {
        ClockOrders(t0, evs, n);
        WriteStep(cfg, t0, init, e, k);
        k := n + 1;
      } else {
        KeepStep(cfg, t0, init, e, k);
      }
    }
  }

  lemma {:induction false} ClockOrders(t0: int, evs: seq<Event>, n: nat)
    requires ClockRuns(t0, evs) && n < |evs|
    ensures forall j :: 0 <= j <= n ==> evs[j].now <= evs[n].now
  {
    if n == 0 {
    } else {
      ClockOrders(t0, evs, n - 1);
    }
  }

  lemma {:induction false} DropAttrsPresent(cfg: Config, t0: int, evs: seq<Event>)
    ensures var c := Run(cfg, t0, evs);
            && (c.pubDropAttrs.Some? <==> exists i :: 0 <= i < |evs| && MayWriteDropAttributes(evs[i]))
            && (c.pubDropAttrs.None? ==> c.lastDropPub.None?)
  {
    if evs == [] {
    } else {
      var n := |evs| - 1;
      DropAttrsPresent(cfg, t0, evs[..n]);
      if i :| 0 <= i < |evs| && MayWriteDropAttributes(evs[i]) && i < n {
        assert MayWriteDropAttributes(evs[..n][i]);
      }
    }
  }

  /** Drop attributes are retained from the first sample or connect on, and they are always those one
      sample or connect left behind; every sample since came less than 15 seconds after it and left the
      flag alone, and only a new start can have moved the since-time meanwhile. */
  lemma DropAttributesAreRecent(cfg: Config, t0: int, evs: seq<Event>)
    requires ClockRuns(t0, evs)
    ensures var c := Run(cfg, t0, evs);
            if c.pubDropAttrs.None? then forall i :: 0 <= i < |evs| ==> !MayWriteDropAttributes(evs[i])
            else exists k: nat :: Retained(cfg, t0, evs, k) &&
                                  (NoStart(evs, k) ==> c.drop.since == c.pubDropAttrs.value.since)
  {
    var k := DropTopicAlways(cfg, t0, evs);
    DropAttrsPresent(cfg, t0, evs);
  }

  /** When a sample last had its attributes published: every sample that changes the flag, that is the first, or
      that comes 15 seconds or more after the last one published. */
  ghost function LastWrite(cfg: Config, t0: int, evs: seq<Event>): Option<int>
    decreases |evs|, 1
  {
    if evs == [] then None
    else
      var n := |evs| - 1;
      if evs[n].Stats? && SampleWrites(cfg, t0, evs) then Some(evs[n].now) else LastWrite(cfg, t0, evs[..n])
  }

  ghost predicate SampleWrites(cfg: Config, t0: int, evs: seq<Event>)
    requires evs != []
    decreases |evs|, 0
  {
    var n := |evs| - 1;
    var last := LastWrite(cfg, t0, evs[..n]);
    Flips(cfg, t0, evs, true, n) || last.None? || evs[n].now - last.value >= 15_000_000_000
  }

  lemma {:induction false} LastWriteIsKept(cfg: Config, t0: int, evs: seq<Event>)
    ensures Run(cfg, t0, evs).lastDropPub == LastWrite(cfg, t0, evs)
  {
    if evs == [] {
    } else {
      var n := |evs| - 1;
      LastWriteIsKept(cfg, t0, evs[..n]);
      assert evs[..n + 1] == evs;
    }
  }

  /** The throttle, exactly: a sample's attributes replace those retained if and only if it changes the flag, is
      the first sample, or comes 15 seconds or more after the last sample that did. */
  lemma SampleWritesIff(cfg: Config, t0: int, evs: seq<Event>)
    requires evs != [] && evs[|evs| - 1].Stats?
    ensures var c, before := Run(cfg, t0, evs), Run(cfg, t0, evs[..|evs| - 1]);
            c.pubDropAttrs == if SampleWrites(cfg, t0, evs)
                              then Some(DropAttrs(c.drop.lastLoss, c.drop.lastDropped, c.drop.since))
                              else before.pubDropAttrs
  {
    LastWriteIsKept(cfg, t0, evs[..|evs| - 1]);
    assert evs[..|evs| - 1 + 1] == evs;
  }

  /** A new start leaves them as they are: they show the last session's loss until the next sample or
      connect, although the fields behind them are zero. */
  lemma StartLeavesDropAttributes(cfg: Config, t0: int, evs: seq<Event>, now: int, k: nat)
    requires Retained(cfg, t0, evs, k)
    ensures var c := Run(cfg, t0, evs + [Started(now)]);
            && Retained(cfg, t0, evs + [Started(now)], k)
            && c.drop.lastLoss == 0.0 && c.drop.lastDropped == 0
  {
    RunSnoc(cfg, t0, evs, Started(now));
    NotDueSnoc(cfg, t0, evs, Started(now), k);
    assert (evs + [Started(now)])[..k] == evs[..k];
  }
}
