/** The per-camera health machine on values, and what it says about the history of its events.
    Times are integers; None stands for the zero time. Loss is an exact fraction. */
module Health {
  import opened Seqs

  const SECOND := 1_000_000_000
  const STALE_GAP := 180 * SECOND
  const DROP_ATTR_INTERVAL := 15 * SECOND

  datatype Config = Config(wedgeAfter: int, dropThreshold: real, dropWindow: int, dropClearWindow: int)

  /** As the reporter's defaults leave it. */
  predicate Usable(cfg: Config) {
    cfg.wedgeAfter > 0 && cfg.dropThreshold > 0.0 && cfg.dropWindow > 0 && cfg.dropClearWindow > 0
  }

  /** "Stream problem" sensor. */
  datatype Stream = Stream(problem: bool, firstFail: Option<int>, lastFail: int, failCount: nat, since: int, lastError: string)

  /** "Frame drops" sensor. */
  datatype Drop = Drop(degraded: bool, highStart: Option<int>, lowStart: Option<int>, since: int,
                       lastLoss: real, lastDropped: nat)

  /** What the attribute topics carry. */
  datatype Attrs = Attrs(failures: nat, since: int, lastError: string)
  datatype DropAttrs = DropAttrs(loss: real, dropped: nat, since: int)

  /** `pubProblem`, `pubDegraded`, `pubAttrs`, `pubDropAttrs`: what each topic retains, the last thing
      published on it. `lastDropPub`: when a sample last published drop attributes. */
  datatype Cam = Cam(
    stream: Stream, drop: Drop, pubProblem: Option<bool>, pubDegraded: Option<bool>,
    pubAttrs: Option<Attrs>, pubDropAttrs: Option<DropAttrs>, lastDropPub: Option<int>)

  datatype Event =
    | Started(now: int)
    | Failed(now: int, errText: string)
    | Stats(now: int, packets: nat, drops: nat, droppedFrames: nat)
    | Tick(now: int)
    | Connected(now: int)

  function InitCam(now: int): Cam {
    Cam(Stream(false, None, 0, 0, now, ""), Drop(false, None, None, now, 0.0, 0), None, None, None, None, None)
  }

  function AttrsOf(s: Stream): Attrs {
    Attrs(s.failCount, s.since, s.lastError)
  }

  function DropAttrsOf(d: Drop): DropAttrs {
    DropAttrs(d.lastLoss, d.lastDropped, d.since)
  }

  // ---------- The source's operations ----------

  function LossFraction(packets: nat, drops: nat): (r: real)
    ensures 0.0 <= r <= 1.0
    ensures r == 0.0 <==> drops == 0
    ensures r * (packets + drops) as real == drops as real
  {
    var total := packets + drops;
    if total == 0 then 0.0 else drops as real / total as real
  }

  function Promote(cfg: Config, s: Stream, now: int): Stream {
    if !s.problem && s.firstFail.Some? && now - s.firstFail.value >= cfg.wedgeAfter
    then s.(problem := true, since := now) else s
  }

  function Success(s: Stream, now: int): Stream {
    Stream(false, None, 0, 0, if s.problem then now else s.since, "")
  }

  function Failure(cfg: Config, s: Stream, now: int, errText: string): Stream {
    var isNew := s.firstFail.None? || now - s.lastFail > STALE_GAP;
    Promote(cfg, s.(firstFail := if isNew then Some(now) else s.firstFail, lastFail := now,
                    failCount := if isNew then 1 else s.failCount + 1, lastError := errText), now)
  }

  predicate High(cfg: Config, loss: real) {
    loss >= cfg.dropThreshold
  }

  predicate Low(cfg: Config, loss: real) {
    !High(cfg, loss) && loss <= cfg.dropThreshold / 2.0
  }

  function StartOf(start: Option<int>, now: int): int {
    if start.Some? then start.value else now
  }

  function ApplyStats(cfg: Config, d: Drop, loss: real, droppedFrames: nat, now: int): Drop {
    var r := d.(lastLoss := loss, lastDropped := droppedFrames);
    if High(cfg, loss) then
      var start := StartOf(d.highStart, now);
      var on := !d.degraded && now - start >= cfg.dropWindow;
      r.(highStart := Some(start), lowStart := None,
         degraded := d.degraded || on, since := if on then now else d.since)
    else if Low(cfg, loss) then
      var start := StartOf(d.lowStart, now);
      var off := d.degraded && now - start >= cfg.dropClearWindow;
      r.(highStart := None, lowStart := Some(start),
         degraded := d.degraded && !off, since := if off then now else d.since)
    else
      r.(highStart := None, lowStart := None)
  }

  function ResetDrop(d: Drop, now: int): Drop {
    Drop(false, None, None, if d.degraded then now else d.since, 0.0, 0)
  }

  /** State topics are written only when the flag changes. */
  function PublishStream(c: Cam, s: Stream): Cam {
    c.(stream := s, pubProblem := if s.problem != c.stream.problem then Some(s.problem) else c.pubProblem)
  }

  function PublishDrop(c: Cam, d: Drop): Cam {
    c.(drop := d, pubDegraded := if d.degraded != c.drop.degraded then Some(d.degraded) else c.pubDegraded)
  }

  function PublishAttributes(c: Cam): Cam {
    c.(pubAttrs := Some(AttrsOf(c.stream)))
  }

  function PublishDropAttributes(c: Cam): Cam {
    c.(pubDropAttrs := Some(DropAttrsOf(c.drop)))
  }

  /** A sample's attributes are published when they come with a change, and else every 15 seconds. */
  predicate Due(c: Cam, d: Drop, now: int) {
    || d.degraded != c.drop.degraded
    || c.lastDropPub.None?
    || now - c.lastDropPub.value >= DROP_ATTR_INTERVAL
  }

  function PublishSample(c: Cam, d: Drop, now: int): Cam {
    if Due(c, d, now) then PublishDropAttributes(PublishDrop(c, d)).(lastDropPub := Some(now)) else PublishDrop(c, d)
  }

  function Step(cfg: Config, c: Cam, e: Event): Cam {
    match e
    case Started(now) => PublishDrop(PublishAttributes(PublishStream(c, Success(c.stream, now))), ResetDrop(c.drop, now))
    case Failed(now, errText) => PublishAttributes(PublishStream(c, Failure(cfg, c.stream, now, errText)))
    case Stats(now, packets, drops, dropped) =>
      PublishSample(c, ApplyStats(cfg, c.drop, LossFraction(packets, drops), dropped, now), now)
    case Tick(now) => PublishStream(c, Promote(cfg, c.stream, now))
    case Connected(_) =>
      PublishDropAttributes(PublishAttributes(c.(pubProblem := Some(c.stream.problem), pubDegraded := Some(c.drop.degraded))))
  }

  function Run(cfg: Config, t0: int, evs: seq<Event>): Cam {
    if evs == [] then InitCam(t0) else Step(cfg, Run(cfg, t0, evs[..|evs| - 1]), evs[|evs| - 1])
  }

  lemma RunSnoc(cfg: Config, t0: int, evs: seq<Event>, e: Event)
    ensures Run(cfg, t0, evs + [e]) == Step(cfg, Run(cfg, t0, evs), e)
  {
    assert (evs + [e])[..|evs|] == evs;
  }

  // ---------- History: loss samples since the last start ----------

  datatype Sample = Sample(packets: nat, drops: nat, droppedFrames: nat, at: int)

  function Samples(evs: seq<Event>): seq<Sample> {
    if evs == [] then []
    else
      var before := Samples(evs[..|evs| - 1]);
      match evs[|evs| - 1]
      case Started(_) => []
      case Stats(now, packets, drops, dropped) => before + [Sample(packets, drops, dropped, now)]
      case _ => before
  }

  /** High: at least the threshold's share of the packets was lost. Low: less than that, and at most half of
      it. A sample of no packets has lost none. */
  predicate Side(cfg: Config, s: Sample, high: bool) {
    var total := s.packets + s.drops;
    if total == 0 then (if high then cfg.dropThreshold <= 0.0 else cfg.dropThreshold > 0.0)
    else if high then s.drops as real >= cfg.dropThreshold * total as real
    else s.drops as real < cfg.dropThreshold * total as real && 2.0 * s.drops as real <= cfg.dropThreshold * total as real
  }

  lemma ScaleReal(a: real, b: real, t: real)
    requires t > 0.0
    ensures a >= b <==> a * t >= b * t
  {
    if a >= b {
      assert (a - b) * t >= 0.0;
    } else {
      assert (b - a) * t > 0.0;
    }
  }

  lemma ShareIff(loss: real, drops: real, total: real, threshold: real)
    requires total > 0.0 && loss * total == drops
    ensures loss >= threshold <==> drops >= threshold * total
    ensures loss <= threshold / 2.0 <==> 2.0 * drops <= threshold * total
  {
    ScaleReal(loss, threshold, total);
    ScaleReal(threshold, 2.0 * loss, total);
    assert 2.0 * loss * total == 2.0 * (loss * total);
  }

  /** Which side a sample is on, by its counts alone. */
  lemma SideOfLoss(cfg: Config, s: Sample)
    ensures High(cfg, LossFraction(s.packets, s.drops)) <==> Side(cfg, s, true)
    ensures Low(cfg, LossFraction(s.packets, s.drops)) <==> Side(cfg, s, false)
  {
    var total := s.packets + s.drops;
    if total > 0 {
      ShareIff(LossFraction(s.packets, s.drops), s.drops as real, total as real, cfg.dropThreshold);
    }
  }

  /** How many samples at the end are high (or low) without interruption. */
  function StreakLen(cfg: Config, ss: seq<Sample>, high: bool): (k: nat)
    ensures k <= |ss|
  {
    if ss == [] || !Side(cfg, ss[|ss| - 1], high) then 0
    else 1 + StreakLen(cfg, ss[..|ss| - 1], high)
  }

  /** The streak is the maximal suffix of high (low) samples. */
  lemma {:induction false} StreakIsMaximal(cfg: Config, ss: seq<Sample>, high: bool)
    ensures var k := StreakLen(cfg, ss, high);
            && (forall i :: |ss| - k <= i < |ss| ==> Side(cfg, ss[i], high))
            && (k < |ss| ==> !Side(cfg, ss[|ss| - k - 1], high))
  {
    if StreakLen(cfg, ss, high) == 0 {
    } else {
      StreakIsMaximal(cfg, ss[..|ss| - 1], high);
    }
  }

  /** The time of the first sample of the streak. */
  function StreakStart(cfg: Config, ss: seq<Sample>, high: bool): Option<int> {
    var k := StreakLen(cfg, ss, high);
    if k == 0 then None else Some(ss[|ss| - k].at)
  }

  lemma StreakSnoc(cfg: Config, ss: seq<Sample>, s: Sample, high: bool)
    ensures StreakStart(cfg, ss + [s], high) ==
            if Side(cfg, s, high) then Some(StartOf(StreakStart(cfg, ss, high), s.at)) else None
  {
    var qs := ss + [s];
    assert qs[..|qs| - 1] == ss;
  }

  /** The streak that ends at the last sample has lasted for `window`. */
  predicate Decisive(cfg: Config, ss: seq<Sample>, high: bool) {
    var start := StreakStart(cfg, ss, high);
    ss != [] && start.Some? &&
    ss[|ss| - 1].at - start.value >= if high then cfg.dropWindow else cfg.dropClearWindow
  }

  /** Some sample completed a long enough high streak, and none since completed a low one. */
  ghost predicate Flagged(cfg: Config, ss: seq<Sample>) {
    exists j :: FlaggedSince(cfg, ss, j)
  }

  ghost predicate FlaggedSince(cfg: Config, ss: seq<Sample>, j: int) {
    && 0 < j <= |ss|
    && Decisive(cfg, ss[..j], true)
    && (forall i :: j < i <= |ss| ==> !Decisive(cfg, ss[..i], false))
  }

  lemma Prefixes(ss: seq<Sample>, s: Sample)
    ensures forall i :: 0 <= i <= |ss| ==> (ss + [s])[..i] == ss[..i]
    ensures (ss + [s])[..|ss| + 1] == ss + [s]
  {
  }

  lemma FlaggedGrows(cfg: Config, ss: seq<Sample>, s: Sample, j: int)
    requires j <= |ss|
    ensures var qs := ss + [s];
            FlaggedSince(cfg, qs, j) <==> FlaggedSince(cfg, ss, j) && !Decisive(cfg, qs, false)
  {
    var qs := ss + [s];
    Prefixes(ss, s);
    if FlaggedSince(cfg, qs, j) {
      assert !Decisive(cfg, qs[..|qs|], false);
      forall i | j < i <= |ss| ensures !Decisive(cfg, ss[..i], false) {
        assert !Decisive(cfg, qs[..i], false);
      }
    }
  }

  lemma FlaggedSnoc(cfg: Config, ss: seq<Sample>, s: Sample)
    ensures var qs := ss + [s];
            Flagged(cfg, qs) <==> Decisive(cfg, qs, true) || (Flagged(cfg, ss) && !Decisive(cfg, qs, false))
  {
    var qs := ss + [s];
    Prefixes(ss, s);
    if Decisive(cfg, qs, true) {
      assert FlaggedSince(cfg, qs, |qs|);
    } else if Flagged(cfg, ss) && !Decisive(cfg, qs, false) {
      var j :| FlaggedSince(cfg, ss, j);
      FlaggedGrows(cfg, ss, s, j);
    } else if Flagged(cfg, qs) {
      var j :| FlaggedSince(cfg, qs, j);
      if j <= |ss| {
        FlaggedGrows(cfg, ss, s, j);
      }
    }
  }

  /** The drop sensor against the samples since the last start. */
  ghost predicate DropMatches(cfg: Config, d: Drop, ss: seq<Sample>) {
    && d.highStart == StreakStart(cfg, ss, true)
    && d.lowStart == StreakStart(cfg, ss, false)
    && (d.degraded <==> Flagged(cfg, ss))
  }

  lemma StatsMatch(cfg: Config, d: Drop, ss: seq<Sample>, s: Sample)
    requires DropMatches(cfg, d, ss)
    ensures DropMatches(cfg, ApplyStats(cfg, d, LossFraction(s.packets, s.drops), s.droppedFrames, s.at), ss + [s])
  {
    SideOfLoss(cfg, s);
    StreakSnoc(cfg, ss, s, true);
    StreakSnoc(cfg, ss, s, false);
    FlaggedSnoc(cfg, ss, s);
  }

  /** In every run: the streak clocks are the times of the first sample of the maximal high (low)
      suffix since the last start, judged by the packets counted and lost, and the sensor is on if and only if some sample since then completed
      a high streak of DropWindow and none after it a low streak of DropClearWindow. */
  lemma {:induction false} DropSensorIsHistory(cfg: Config, t0: int, evs: seq<Event>)
    ensures DropMatches(cfg, Run(cfg, t0, evs).drop, Samples(evs))
  {
    if evs == [] {
      assert !Flagged(cfg, []);
    } else {
      var n := |evs| - 1;
      DropSensorIsHistory(cfg, t0, evs[..n]);
      match evs[n] {
        case Started(_) => assert !Flagged(cfg, []);
        case Stats(now, packets, drops, dropped) =>
          StatsMatch(cfg, Run(cfg, t0, evs[..n]).drop, Samples(evs[..n]), Sample(packets, drops, dropped, now));
        case _ =>
      }
    }
  }

  // ---------- History: failures since the last success ----------

  function FailTimes(evs: seq<Event>): seq<int> {
    if evs == [] then []
    else
      var before := FailTimes(evs[..|evs| - 1]);
      match evs[|evs| - 1]
      case Started(_) => []
      case Failed(now, _) => before + [now]
      case _ => before
  }

  /** How many failures at the end follow each other within the stale gap. */
  function RunLen(ts: seq<int>): (k: nat)
    ensures k <= |ts|
    ensures ts != [] ==> k > 0
  {
    if ts == [] then 0
    else if |ts| == 1 || ts[|ts| - 1] - ts[|ts| - 2] > 180_000_000_000 then 1
    else 1 + RunLen(ts[..|ts| - 1])
  }

  predicate Within(ts: seq<int>, i: int)
    requires 0 < i < |ts|
  {
    ts[i] - ts[i - 1] <= 180_000_000_000
  }

  /** The streak is the maximal suffix of failures whose gaps are at most the stale gap. */
  lemma {:induction false} RunIsMaximal(ts: seq<int>)
    ensures var k := RunLen(ts);
            && (forall i :: |ts| - k < i < |ts| ==> Within(ts, i))
            && (0 < k < |ts| ==> !Within(ts, |ts| - k))
  {
    if RunLen(ts) <= 1 {
    } else {
      var init := ts[..|ts| - 1];
      RunIsMaximal(init);
      assert forall i :: 0 < i < |init| ==> Within(ts, i) == Within(init, i);
    }
  }

  function RunStart(ts: seq<int>): Option<int> {
    if ts == [] then None else Some(ts[|ts| - RunLen(ts)])
  }

  /** The current streak began at least `wedgeAfter` ago. */
  predicate Old(cfg: Config, ts: seq<int>, now: int) {
    ts != [] && now - RunStart(ts).value >= cfg.wedgeAfter
  }

  /** A failure or a tick finds the current failure streak at least `wedgeAfter` old. */
  ghost predicate Wedged(cfg: Config, evs: seq<Event>) {
    && evs != []
    && (evs[|evs| - 1].Failed? || evs[|evs| - 1].Tick?)
    && Old(cfg, FailTimes(evs), evs[|evs| - 1].now)
  }

  ghost predicate WedgedSince(cfg: Config, evs: seq<Event>, j: int) {
    && 0 < j <= |evs|
    && Wedged(cfg, evs[..j])
    && (forall i :: j <= i < |evs| ==> !evs[i].Started?)
  }

  ghost predicate ProblemSeen(cfg: Config, evs: seq<Event>) {
    exists j :: WedgedSince(cfg, evs, j)
  }

  lemma ProblemSnoc(cfg: Config, evs: seq<Event>, e: Event)
    ensures var qs := evs + [e];
            ProblemSeen(cfg, qs) <==> Wedged(cfg, qs) || (ProblemSeen(cfg, evs) && !e.Started?)
  {
    var qs := evs + [e];
    assert qs[..|qs|] == qs;
    forall i | 0 <= i <= |evs| ensures qs[..i] == evs[..i] {
    }
    if Wedged(cfg, qs) {
      assert WedgedSince(cfg, qs, |qs|);
    } else if ProblemSeen(cfg, evs) && !e.Started? {
      var j :| WedgedSince(cfg, evs, j);
      assert WedgedSince(cfg, qs, j);
    }
    if ProblemSeen(cfg, qs) && !Wedged(cfg, qs) {
      var j :| WedgedSince(cfg, qs, j);
      assert qs[|evs|] == e;
      assert WedgedSince(cfg, evs, j) by {
        assert forall i :: j <= i < |evs| ==> qs[i] == evs[i];
      }
    }
  }

  /** firstFail, lastFail and failCount against the failures since the last success. */
  predicate StreakMatches(s: Stream, ts: seq<int>) {
    && s.firstFail == RunStart(ts)
    && s.failCount == RunLen(ts)
    && (ts != [] ==> s.lastFail == ts[|ts| - 1])
  }

  ghost predicate StreamMatches(cfg: Config, s: Stream, evs: seq<Event>) {
    && StreakMatches(s, FailTimes(evs))
    && (s.problem <==> ProblemSeen(cfg, evs))
    && (s.problem ==> FailTimes(evs) != [])
  }

  predicate FreshStreak(ts: seq<int>, now: int) {
    ts == [] || now - ts[|ts| - 1] > 180_000_000_000
  }

  lemma RunLenSnoc(ts: seq<int>, now: int)
    ensures RunLen(ts + [now]) == if FreshStreak(ts, now) then 1 else RunLen(ts) + 1
  {
    var qs := ts + [now];
    assert qs[..|qs| - 1] == ts;
    assert qs[|qs| - 1] == now && (ts != [] ==> qs[|qs| - 2] == ts[|ts| - 1]);
  }

  lemma RunStartSnoc(ts: seq<int>, now: int)
    ensures RunStart(ts + [now]) == if FreshStreak(ts, now) then Some(now) else RunStart(ts)
  {
    RunLenSnoc(ts, now);
    var qs, k := ts + [now], RunLen(ts);
    assert ts != [] ==> qs[|ts| - k] == ts[|ts| - k];
  }

  lemma FailTimesSnoc(evs: seq<Event>, e: Event)
    ensures FailTimes(evs + [e]) ==
            if e.Started? then [] else if e.Failed? then FailTimes(evs) + [e.now] else FailTimes(evs)
  {
    assert (evs + [e])[..|evs|] == evs;
  }

  lemma FailureMatches(cfg: Config, s: Stream, ts: seq<int>, now: int, errText: string)
    requires StreakMatches(s, ts)
    ensures var r := Failure(cfg, s, now, errText);
            StreakMatches(r, ts + [now]) && (r.problem <==> s.problem || Old(cfg, ts + [now], now))
  {
    RunLenSnoc(ts, now);
    RunStartSnoc(ts, now);
  }

  lemma PromoteMatches(cfg: Config, s: Stream, ts: seq<int>, now: int)
    requires StreakMatches(s, ts)
    ensures var r := Promote(cfg, s, now);
            StreakMatches(r, ts) && (r.problem <==> s.problem || Old(cfg, ts, now))
  {
  }

  lemma StreamStep(cfg: Config, c: Cam, evs: seq<Event>, e: Event)
    requires StreamMatches(cfg, c.stream, evs)
    ensures StreamMatches(cfg, Step(cfg, c, e).stream, evs + [e])
  {
    ProblemSnoc(cfg, evs, e);
    FailTimesSnoc(evs, e);
    if e.Failed? {
      FailureMatches(cfg, c.stream, FailTimes(evs), e.now, e.errText);
    } else if e.Tick? {
      PromoteMatches(cfg, c.stream, FailTimes(evs), e.now);
    }
  }

  /** In every run: firstFail and failCount are the start and the length of the maximal streak of
      failures since the last success whose gaps are at most staleGap, and the sensor is on if and only
      if some failure or tick since the last success found its streak at least WedgeAfter old; then the
      streak is not empty. */
  lemma {:induction false} StreamSensorIsHistory(cfg: Config, t0: int, evs: seq<Event>)
    ensures StreamMatches(cfg, Run(cfg, t0, evs).stream, evs)
  {
    if evs == [] {
      assert !ProblemSeen(cfg, []);
    } else {
      var n := |evs| - 1;
      var init, e := evs[..n], evs[n];
      StreamSensorIsHistory(cfg, t0, init);
      assert init + [e] == evs;
      StreamStep(cfg, Run(cfg, t0, init), init, e);
    }
  }

  /** A single failure with no further attempt is flagged by the first tick WedgeAfter later. */
  lemma OneFailureIsEnough(cfg: Config, t0: int, failedAt: int, tickAt: int, errText: string)
    requires Usable(cfg) && tickAt - failedAt >= cfg.wedgeAfter
    ensures var s := Run(cfg, t0, [Failed(failedAt, errText), Tick(tickAt)]).stream; s.problem && s.failCount == 1
  {
    RunSnoc(cfg, t0, [], Failed(failedAt, errText));
    RunSnoc(cfg, t0, [Failed(failedAt, errText)], Tick(tickAt));
    assert [] + [Failed(failedAt, errText)] == [Failed(failedAt, errText)];
    assert [Failed(failedAt, errText)] + [Tick(tickAt)] == [Failed(failedAt, errText), Tick(tickAt)];
  }

  // ---------- Since-times ----------

  function Flag(c: Cam, drops: bool): bool {
    if drops then c.drop.degraded else c.stream.problem
  }

  function Since(c: Cam, drops: bool): int {
    if drops then c.drop.since else c.stream.since
  }

  /** Event j changes the flag of the drop or the stream sensor. */
  predicate Flips(cfg: Config, t0: int, evs: seq<Event>, drops: bool, j: nat)
    requires j < |evs|
  {
    Flag(Run(cfg, t0, evs[..j]), drops) != Flag(Run(cfg, t0, evs[..j + 1]), drops)
  }

  lemma SinceStep(cfg: Config, c: Cam, e: Event, drops: bool)
    ensures var r := Step(cfg, c, e); Since(r, drops) == if Flag(r, drops) != Flag(c, drops) then e.now else Since(c, drops)
  {
  }

  /** In every run each sensor's since-time is the time of the last event that changed its flag, the
      reporter's start if none did. */
  lemma {:induction false} SinceIsLastChange(cfg: Config, t0: int, evs: seq<Event>, drops: bool) returns (i: int)
    ensures -1 <= i < |evs|
    ensures if i == -1 then Since(Run(cfg, t0, evs), drops) == t0
            else Flips(cfg, t0, evs, drops, i) && Since(Run(cfg, t0, evs), drops) == evs[i].now
    ensures forall j :: i < j < |evs| ==> !Flips(cfg, t0, evs, drops, j)
  {
    i := -1;
    if evs == [] {
    } else {
      var n := |evs| - 1;
      var init := evs[..n];
      i := SinceIsLastChange(cfg, t0, init, drops);
      assert evs[..n + 1] == evs;
      SinceStep(cfg, Run(cfg, t0, init), evs[n], drops);
      forall j: nat | j < n ensures Flips(cfg, t0, evs, drops, j) == Flips(cfg, t0, init, drops, j) {
        assert init[..j] == evs[..j] && init[..j + 1] == evs[..j + 1];
      }
      if Flips(cfg, t0, evs, drops, n) {
        i := n;
      }
    }
  }

  ghost predicate ClockRuns(t0: int, evs: seq<Event>) {
    && (forall i :: 0 <= i < |evs| ==> t0 <= evs[i].now)
    && (forall i :: 0 < i < |evs| ==> evs[i - 1].now <= evs[i].now)
  }

  predicate Between(t0: int, t: int, now: int) {
    t0 <= t <= now
  }

  predicate InThePast(t0: int, c: Cam, now: int) {
    && Between(t0, c.stream.since, now) && Between(t0, c.drop.since, now)
    && (c.stream.firstFail.Some? ==> Between(t0, c.stream.firstFail.value, now))
    && (c.drop.highStart.Some? ==> Between(t0, c.drop.highStart.value, now))
    && (c.drop.lowStart.Some? ==> Between(t0, c.drop.lowStart.value, now))
  }

  lemma StepInThePast(cfg: Config, t0: int, c: Cam, before: int, e: Event)
    requires InThePast(t0, c, before) && t0 <= before <= e.now
    ensures InThePast(t0, Step(cfg, c, e), e.now)
  {
  }

  /** Under a clock that does not run backwards, every recorded start lies between the reporter's own
      start and the last event: no streak is measured from the future. */
  lemma {:induction false} StartsAreInThePast(cfg: Config, t0: int, evs: seq<Event>)
    requires ClockRuns(t0, evs)
    ensures InThePast(t0, Run(cfg, t0, evs), if evs == [] then t0 else evs[|evs| - 1].now)
  {
    if evs == [] {
    } else {
      var n := |evs| - 1;
      StartsAreInThePast(cfg, t0, evs[..n]);
      StepInThePast(cfg, t0, Run(cfg, t0, evs[..n]), if n == 0 then t0 else evs[n - 1].now, evs[n]);
    }
  }
}
