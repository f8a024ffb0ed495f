/** The per-packet frame assembler of the video read loop, on values.
    `log` records, in order, what became of every buffer the loop emptied. */
module FrameAssembler {
  import opened Rtp
  import opened Seqs

  const BUFFER_CAP := 300

  /** Which callbacks are set; the loop tests each for nil. */
  datatype Callbacks = Callbacks(onVideo: bool, onIDR: bool, onStats: bool)

  /** Unclaimed: a complete frame with no video callback to take it. */
  datatype Fate = Forwarded | CachedOnly | Dropped | Overflowed | Unclaimed

  datatype Batch = Batch(fate: Fate, pkts: seq<Packet>)

  datatype VideoStats = VideoStats(packets: int, drops: int, droppedFrames: int)

  /** The counters that depend on sequence numbers alone. */
  datatype Rx = Rx(videoCount: nat, lastSeq: Seq16, dropCount: nat, gapEvents: nat)

  datatype Loop = Loop(
    rx: Rx,
    lastFrameTS: U32,
    gapped: bool,
    buf: seq<Packet>,
    droppedFrames: nat,
    stat: VideoStats,
    log: seq<Batch>,
    reports: seq<VideoStats>)

  const InitRx := Rx(0, 0, 0, 0)
  const Init := Loop(InitRx, 0, false, [], 0, VideoStats(0, 0, 0), [], [])

  /** An accepted packet; `tick` says that a second has passed since the last report. */
  datatype Event = Event(pkt: Packet, tick: bool)

  predicate IsIDRFrame(buf: seq<Packet>) {
    buf != [] && IsStapA(buf[0].payload)
  }

  /** Packets the sequence numbers say are missing between `last` and `got`. */
  function Gap(last: Seq16, got: Seq16): nat {
    var gap := got - NextSeq(last);
    if gap < 0 then gap + SEQ_MOD else gap
  }

  predicate IsGap(rx: Rx, p: Packet) {
    rx.videoCount > 0 && p.seqNo != NextSeq(rx.lastSeq)
  }

  function Count(rx: Rx, p: Packet): Rx {
    if IsGap(rx, p) then
      Rx(rx.videoCount + 1, p.seqNo, rx.dropCount + Gap(rx.lastSeq, p.seqNo), rx.gapEvents + 1)
    else
      Rx(rx.videoCount + 1, p.seqNo, rx.dropCount, rx.gapEvents)
  }

  function Account(s: Loop, p: Packet): Loop {
    s.(rx := Count(s.rx, p),
       gapped := s.gapped || IsGap(s.rx, p),
       lastFrameTS := if s.rx.videoCount == 0 then p.ts else s.lastFrameTS)
  }

  function FateOf(cb: Callbacks, s: Loop): Fate {
    if !s.gapped then (if cb.onVideo then Forwarded else Unclaimed)
    else if cb.onIDR && IsIDRFrame(s.buf) then CachedOnly
    else Dropped
  }

  function Flush(cb: Callbacks, s: Loop): Loop {
    s.(log := s.log + [Batch(FateOf(cb, s), s.buf)],
       droppedFrames := s.droppedFrames + if s.gapped then 1 else 0,
       buf := [])
  }

  /** A new timestamp ends the buffered frame; a gap survives into a packet that starts no frame. */
  function TimestampFlush(cb: Callbacks, s: Loop, p: Packet): Loop {
    if p.ts != s.lastFrameTS && s.buf != [] then
      Flush(cb, s).(gapped := s.gapped && |p.payload| > 0 && !IsFrameStart(p.payload), lastFrameTS := p.ts)
    else
      s.(lastFrameTS := p.ts)
  }

  function Cap(s: Loop): Loop {
    if |s.buf| >= BUFFER_CAP then
      s.(log := s.log + [Batch(Overflowed, s.buf)], buf := [], gapped := true)
    else s
  }

  function Buffer(s: Loop, p: Packet): Loop {
    s.(buf := s.buf + [p])
  }

  function Report(cb: Callbacks, s: Loop, tick: bool): Loop {
    if !tick then s else
      var delta := VideoStats(s.rx.videoCount - s.stat.packets, s.rx.dropCount - s.stat.drops,
                              s.droppedFrames - s.stat.droppedFrames);
      s.(reports := if cb.onStats then s.reports + [delta] else s.reports,
         stat := VideoStats(s.rx.videoCount, s.rx.dropCount, s.droppedFrames))
  }

  function MarkerFlush(cb: Callbacks, s: Loop, p: Packet): Loop {
    if p.marker then Flush(cb, s).(gapped := false) else s
  }

  /** One accepted packet. */
  function Step(cb: Callbacks, s: Loop, e: Event): Loop {
    var p := e.pkt;
    MarkerFlush(cb, Report(cb, Buffer(Cap(TimestampFlush(cb, Account(s, p), p)), p), e.tick), p)
  }

  function RunFrom(cb: Callbacks, s: Loop, evs: seq<Event>): Loop {
    if evs == [] then s else Step(cb, RunFrom(cb, s, evs[..|evs| - 1]), evs[|evs| - 1])
  }

  function Run(cb: Callbacks, evs: seq<Event>): Loop {
    RunFrom(cb, Init, evs)
  }

  lemma RunFromSnoc(cb: Callbacks, s: Loop, evs: seq<Event>, e: Event)
    ensures RunFrom(cb, s, evs + [e]) == Step(cb, RunFrom(cb, s, evs), e)
  {
    assert (evs + [e])[..|evs|] == evs;
  }

  function Packets(evs: seq<Event>): (ps: seq<Packet>)
    ensures |ps| == |evs|
    ensures forall i :: 0 <= i < |evs| ==> ps[i] == evs[i].pkt
  {
    if evs == [] then [] else Packets(evs[..|evs| - 1]) + [evs[|evs| - 1].pkt]
  }

  function PacketsOf(log: seq<Batch>): seq<Packet> {
    if log == [] then [] else PacketsOf(log[..|log| - 1]) + log[|log| - 1].pkts
  }

  function ForwardedOf(log: seq<Batch>): seq<Packet> {
    if log == [] then []
    else ForwardedOf(log[..|log| - 1]) + if log[|log| - 1].fate.Forwarded? then log[|log| - 1].pkts else []
  }

  function GappedBatches(log: seq<Batch>): nat {
    if log == [] then 0
    else GappedBatches(log[..|log| - 1]) +
         if log[|log| - 1].fate.Dropped? || log[|log| - 1].fate.CachedOnly? then 1 else 0
  }

  lemma LogSnoc(log: seq<Batch>, b: Batch)
    ensures PacketsOf(log + [b]) == PacketsOf(log) + b.pkts
    ensures ForwardedOf(log + [b]) == ForwardedOf(log) + if b.fate.Forwarded? then b.pkts else []
    ensures GappedBatches(log + [b]) == GappedBatches(log) + if b.fate.Dropped? || b.fate.CachedOnly? then 1 else 0
  {
    assert (log + [b])[..|log|] == log;
  }

  function Total(reports: seq<VideoStats>): VideoStats {
    if reports == [] then VideoStats(0, 0, 0)
    else
      var t, r := Total(reports[..|reports| - 1]), reports[|reports| - 1];
      VideoStats(t.packets + r.packets, t.drops + r.drops, t.droppedFrames + r.droppedFrames)
  }

  // ---------- Conservation ----------

  ghost predicate Conserved(cb: Callbacks, s: Loop, received: seq<Packet>) {
    && PacketsOf(s.log) + s.buf == received
    && |s.buf| <= 300
    && s.droppedFrames == GappedBatches(s.log)
    && (cb.onStats ==> Total(s.reports) == s.stat)
  }

  lemma FlushConserves(cb: Callbacks, s: Loop, received: seq<Packet>)
    requires Conserved(cb, s, received)
    ensures Conserved(cb, Flush(cb, s), received)
  {
    LogSnoc(s.log, Batch(FateOf(cb, s), s.buf));
  }

  lemma BufferConserves(cb: Callbacks, s: Loop, p: Packet, received: seq<Packet>)
    requires Conserved(cb, s, received)
    ensures Conserved(cb, Buffer(Cap(s), p), received + [p])
  {
    LogSnoc(s.log, Batch(Overflowed, s.buf));
  }

  lemma ReportConserves(cb: Callbacks, s: Loop, tick: bool, received: seq<Packet>)
    requires Conserved(cb, s, received)
    ensures Conserved(cb, Report(cb, s, tick), received)
  {
    var delta := VideoStats(s.rx.videoCount - s.stat.packets, s.rx.dropCount - s.stat.drops,
                            s.droppedFrames - s.stat.droppedFrames);
    assert (s.reports + [delta])[..|s.reports|] == s.reports;
  }

  lemma StepConserves(cb: Callbacks, s: Loop, e: Event, received: seq<Packet>)
    requires Conserved(cb, s, received)
    ensures Conserved(cb, Step(cb, s, e), received + [e.pkt])
  {
    var a := Account(s, e.pkt);
    FlushConserves(cb, a, received);
    var t := TimestampFlush(cb, a, e.pkt);
    assert Conserved(cb, t, received);
    BufferConserves(cb, t, e.pkt, received);
    var b := Buffer(Cap(t), e.pkt);
    ReportConserves(cb, b, e.tick, received + [e.pkt]);
    FlushConserves(cb, Report(cb, b, e.tick), received + [e.pkt]);
  }

  /** Every accepted packet is in the buffer or in exactly one logged batch, in arrival order; the
      buffer never exceeds its cap; reports plus the unreported remainder are the running totals. */
  lemma {:induction false} Conservation(cb: Callbacks, evs: seq<Event>)
    ensures Conserved(cb, Run(cb, evs), Packets(evs))
  {
    if evs == [] {
    } else {
      Conservation(cb, evs[..|evs| - 1]);
      StepConserves(cb, Run(cb, evs[..|evs| - 1]), evs[|evs| - 1], Packets(evs[..|evs| - 1]));
    }
  }

  /** The last snapshot was taken at event k. */
  predicate LastTick(evs: seq<Event>, k: nat) {
    k < |evs| && evs[k].tick && forall i :: k < i < |evs| ==> !evs[i].tick
  }

  /** What the statistics say after a tick: all packets up to it, the drops counted up to it, and the frames
      dropped before its own marker. */
  predicate Snapshot(cb: Callbacks, stat: VideoStats, evs: seq<Event>)
    requires evs != []
  {
    var n := |evs| - 1;
    && stat.packets == |evs|
    && stat.drops == Run(cb, evs).rx.dropCount
    && Run(cb, evs[..n]).droppedFrames <= stat.droppedFrames <= Run(cb, evs).droppedFrames
    && (!evs[n].pkt.marker ==> stat.droppedFrames == Run(cb, evs).droppedFrames)
  }

  lemma StepReports(cb: Callbacks, s: Loop, e: Event)
    ensures var r := Step(cb, s, e);
            if !e.tick then r.stat == s.stat
            else && r.stat.packets == s.rx.videoCount + 1 && r.stat.drops == r.rx.dropCount
                 && s.droppedFrames <= r.stat.droppedFrames <= r.droppedFrames
                 && (!e.pkt.marker ==> r.stat.droppedFrames == r.droppedFrames)
  {
  }

  lemma {:induction false} CountsPackets(cb: Callbacks, evs: seq<Event>)
    ensures Run(cb, evs).rx.videoCount == |evs|
  {
    if evs == [] {
    } else {
      CountsPackets(cb, evs[..|evs| - 1]);
      StepCounts(cb, Run(cb, evs[..|evs| - 1]), evs[|evs| - 1]);
    }
  }

  lemma SnapshotAtTick(cb: Callbacks, evs: seq<Event>)
    requires evs != [] && evs[|evs| - 1].tick
    ensures Snapshot(cb, Run(cb, evs).stat, evs)
  {
    var n := |evs| - 1;
    CountsPackets(cb, evs[..n]);
    StepReports(cb, Run(cb, evs[..n]), evs[n]);
  }

  lemma {:induction false} StatIsLastTick(cb: Callbacks, evs: seq<Event>, k: nat)
    requires LastTick(evs, k)
    ensures Run(cb, evs).stat == Run(cb, evs[..k + 1]).stat
    decreases |evs|
  {
    var n := |evs| - 1;
    if k == n {
      assert evs[..n + 1] == evs;
    } else {
      StepReports(cb, Run(cb, evs[..n]), evs[n]);
      StatIsLastTick(cb, evs[..n], k);
      assert evs[..n][..k + 1] == evs[..k + 1];
    }
  }

  /** In every run the reports together are the statistics of the moment of the last one. */
  lemma ReportsAreTotals(cb: Callbacks, evs: seq<Event>, k: nat)
    requires LastTick(evs, k)
    ensures Snapshot(cb, Run(cb, evs).stat, evs[..k + 1])
    ensures cb.onStats ==> Total(Run(cb, evs).reports) == Run(cb, evs).stat
  {
    Conservation(cb, evs);
    StatIsLastTick(cb, evs, k);
    SnapshotAtTick(cb, evs[..k + 1]);
  }

  // ---------- Drop-count arithmetic ----------

  function CountAll(ps: seq<Packet>): Rx {
    if ps == [] then InitRx else Count(CountAll(ps[..|ps| - 1]), ps[|ps| - 1])
  }

  lemma StepCounts(cb: Callbacks, s: Loop, e: Event)
    ensures Step(cb, s, e).rx == Count(s.rx, e.pkt)
  {
  }

  lemma {:induction false} RunCounts(cb: Callbacks, evs: seq<Event>)
    ensures Run(cb, evs).rx == CountAll(Packets(evs))
  {
    if evs == [] {
    } else {
      RunCounts(cb, evs[..|evs| - 1]);
      StepCounts(cb, Run(cb, evs[..|evs| - 1]), evs[|evs| - 1]);
      assert Packets(evs)[..|evs| - 1] == Packets(evs[..|evs| - 1]);
    }
  }

  lemma GapMod(last: Seq16, got: Seq16)
    ensures (last + 1 + Gap(last, got)) % 65536 == got
    ensures Gap(last, got) == 0 <==> got == NextSeq(last)
    ensures Gap(last, got) < 65536
  {
  }

  lemma AddMod(x: int, k: int)
    ensures (x + k) % 65536 == (x % 65536 + k) % 65536
  {
  }

  lemma {:induction false} CountModulo(ps: seq<Packet>)
    requires ps != []
    ensures var rx := CountAll(ps);
            && rx.videoCount == |ps|
            && rx.lastSeq == ps[|ps| - 1].seqNo
            && (ps[0].seqNo + (|ps| - 1) + rx.dropCount) % 65536 == rx.lastSeq
  {
    var init := ps[..|ps| - 1];
    if init == [] {
    } else {
      CountModulo(init);
      var rx, got := CountAll(init), ps[|ps| - 1].seqNo;
      GapMod(rx.lastSeq, got);
      AddMod(ps[0].seqNo + (|init| - 1) + rx.dropCount, 1 + Gap(rx.lastSeq, got));
    }
  }

  /** Under any loss, reordering and duplication, first number + packets - 1 + drops is the last
      number modulo 2^16. */
  lemma DropCountModulo(cb: Callbacks, evs: seq<Event>)
    requires evs != []
    ensures var rx := Run(cb, evs).rx;
            && rx.videoCount == |evs|
            && rx.lastSeq == evs[|evs| - 1].pkt.seqNo
            && (evs[0].pkt.seqNo + (|evs| - 1) + rx.dropCount) % 65536 == rx.lastSeq
  {
    RunCounts(cb, evs);
    CountModulo(Packets(evs));
  }

  /** How many packets do not carry the number after their predecessor's. */
  function Jumps(ps: seq<Packet>): nat {
    if |ps| <= 1 then 0
    else
      var n := |ps| - 1;
      Jumps(ps[..n]) + if ps[n].seqNo == (ps[n - 1].seqNo + 1) % 65536 then 0 else 1
  }

  lemma {:induction false} CountJumps(ps: seq<Packet>)
    ensures CountAll(ps).gapEvents == Jumps(ps)
  {
    if |ps| <= 1 {
      assert ps != [] ==> ps[..0] == [];
    } else {
      CountJumps(ps[..|ps| - 1]);
      CountModulo(ps[..|ps| - 1]);
    }
  }

  /** Every such packet is one gap event, and nothing else is. */
  lemma GapEventsAreJumps(cb: Callbacks, evs: seq<Event>)
    ensures Run(cb, evs).rx.gapEvents == Jumps(Packets(evs))
  {
    RunCounts(cb, evs);
    CountJumps(Packets(evs));
  }

  /** `at[i]` is the camera's unwrapped number of the i-th accepted packet. */
  ghost predicate Unwrapped(ps: seq<Packet>, at: seq<int>) {
    && |at| == |ps|
    && (forall i :: 0 <= i < |at| ==> ps[i].seqNo == at[i] % 65536)
  }

  predicate Increasing(at: seq<int>) {
    forall i :: 0 < i < |at| ==> at[i - 1] < at[i]
  }

  /** Numbers skipped on the way to the i-th packet: negative if it is at or behind its predecessor. */
  function Skipped(at: seq<int>, i: nat): int
    requires 0 < i < |at|
  {
    at[i] - at[i - 1] - 1
  }

  /** Whole number cycles in the steps: below zero for a step back. */
  function Turns(at: seq<int>): int {
    if |at| <= 1 then 0 else Turns(at[..|at| - 1]) + Skipped(at, |at| - 1) / 65536
  }

  /** Numbers between the first and the last packet that are missing on balance. */
  function NetLoss(at: seq<int>): int
    requires at != []
  {
    at[|at| - 1] - at[0] - (|at| - 1)
  }

  lemma WholeCycles(x: int, y: int, k: int)
    requires x == y + 65536 * k
    ensures x % 65536 == y % 65536
  {
  }

  lemma GapOfUnwrapped(a: int, b: int)
    ensures Gap(a % 65536, b % 65536) == (b - a - 1) % 65536
  {
    GapMod(a % 65536, b % 65536);
    WholeCycles(b - a - 1, b % 65536 - a % 65536 - 1, b / 65536 - a / 65536);
  }

  lemma DivModSeq(x: int)
    ensures x == 65536 * (x / 65536) + x % 65536
  {
  }

  lemma {:induction false} CountStep(ps: seq<Packet>, at: seq<int>)
    requires |ps| > 1 && Unwrapped(ps, at)
    ensures var n := |ps| - 1;
            CountAll(ps).dropCount == CountAll(ps[..n]).dropCount + Skipped(at, n) - 65536 * (Skipped(at, n) / 65536)
  {
    var n := |ps| - 1;
    CountModulo(ps[..n]);
    GapOfUnwrapped(at[n - 1], at[n]);
    GapMod(ps[n - 1].seqNo, ps[n].seqNo);
    DivModSeq(Skipped(at, n));
  }

  lemma {:induction false} CountTurns(ps: seq<Packet>, at: seq<int>)
    requires ps != [] && Unwrapped(ps, at)
    ensures CountAll(ps).dropCount == NetLoss(at) - 65536 * Turns(at)
  {
    var n := |ps| - 1;
    if n == 0 {
      assert ps[..0] == [];
    } else {
      CountTurns(ps[..n], at[..n]);
      CountStep(ps, at);
    }
  }

  /** Under any loss, reordering and duplication the drop count is the net loss, less 65536 for every
      whole cycle skipped forwards and more by 65536 for every one stepped back. */
  lemma DropCountIsNetLoss(cb: Callbacks, evs: seq<Event>, at: seq<int>)
    requires evs != [] && Unwrapped(Packets(evs), at)
    ensures Run(cb, evs).rx.dropCount == NetLoss(at) - 65536 * Turns(at)
  {
    RunCounts(cb, evs);
    CountTurns(Packets(evs), at);
  }

  predicate SmallLosses(at: seq<int>) {
    forall i :: 0 < i < |at| ==> Skipped(at, i) < 65536
  }

  lemma {:induction false} SmallLossesSnoc(at: seq<int>)
    requires |at| > 1
    ensures var n := |at| - 1; SmallLosses(at) <==> SmallLosses(at[..n]) && Skipped(at, n) < 65536
  {
    var n := |at| - 1;
    assert forall i :: 0 < i < n ==> Skipped(at[..n], i) == Skipped(at, i);
  }

  lemma {:induction false} IncreasingTurns(at: seq<int>)
    requires Increasing(at)
    ensures Turns(at) >= 0 && (Turns(at) == 0 <==> SmallLosses(at))
  {
    if |at| <= 1 {
    } else {
      var n := |at| - 1;
      IncreasingTurns(at[..n]);
      SmallLossesSnoc(at);
      DivModSeq(Skipped(at, n));
    }
  }

  /** In-order delivery: the count never exceeds the true loss, and is exact if and only if no
      single loss reaches 65536 packets. */
  lemma DropCountExact(cb: Callbacks, evs: seq<Event>, at: seq<int>)
    requires evs != [] && Unwrapped(Packets(evs), at) && Increasing(at)
    ensures Run(cb, evs).rx.dropCount <= NetLoss(at)
    ensures Run(cb, evs).rx.dropCount == NetLoss(at) <==> SmallLosses(at)
  {
    DropCountIsNetLoss(cb, evs, at);
    IncreasingTurns(at);
  }

  /** No step leads further than a number cycle, forwards or backwards. */
  predicate Near(at: seq<int>) {
    forall i :: 0 < i < |at| ==> -65536 <= Skipped(at, i) < 65536
  }

  /** How many packets arrive at or behind their predecessor. */
  function Backward(at: seq<int>): nat {
    if |at| <= 1 then 0
    else
      var n := |at| - 1;
      Backward(at[..n]) + if at[n] <= at[n - 1] then 1 else 0
  }

  lemma {:induction false} NearTurns(at: seq<int>)
    requires Near(at)
    ensures Turns(at) + Backward(at) == 0
    ensures Backward(at) == 0 <==> Increasing(at)
  {
    if |at| <= 1 {
    } else {
      var n := |at| - 1;
      assert forall i :: 0 < i < n ==> Skipped(at[..n], i) == Skipped(at, i);
      NearTurns(at[..n]);
      DivModSeq(Skipped(at, n));
      assert Increasing(at) <==> Increasing(at[..n]) && at[n - 1] < at[n];
    }
  }

  /** Any order, with repeats: every packet that arrives at or behind its predecessor adds a cycle of
      65536 to the net loss, so the count is the net loss if and only if none does. */
  lemma DropCountReordered(cb: Callbacks, evs: seq<Event>, at: seq<int>)
    requires evs != [] && Unwrapped(Packets(evs), at) && Near(at)
    ensures Run(cb, evs).rx.dropCount == NetLoss(at) + 65536 * Backward(at)
    ensures Run(cb, evs).rx.dropCount == NetLoss(at) <==> Increasing(at)
  {
    DropCountIsNetLoss(cb, evs, at);
    NearTurns(at);
  }

  function Swap<T>(s: seq<T>, j: nat): (r: seq<T>)
    requires j + 1 < |s|
    ensures |r| == |s|
    ensures forall i :: 0 <= i < |s| ==> r[i] == if i == j then s[j + 1] else if i == j + 1 then s[j] else s[i]
  {
    s[j := s[j + 1]][j + 1 := s[j]]
  }

  /** The packets around positions j and j + 1 come in order and no further apart than a cycle. */
  predicate CloseAround(at: seq<int>, j: nat) {
    && 0 < j && j + 2 < |at|
    && at[j - 1] < at[j] < at[j + 1] < at[j + 2]
    && at[j + 1] - at[j - 1] <= 65536 && at[j + 2] - at[j] <= 65536
  }

  lemma {:induction false} TurnsOfFour(at: seq<int>, j: nat)
    requires 0 < j && j + 3 == |at|
    ensures Turns(at) == Turns(at[..j]) + Skipped(at, j) / 65536 + Skipped(at, j + 1) / 65536 + Skipped(at, j + 2) / 65536
  {
    var c := at[..j + 2];
    var b := at[..j + 1];
    assert c[..j + 1] == b && b[..j] == at[..j];
    assert Turns(b) == Turns(at[..j]) + Skipped(at, j) / 65536;
    assert Turns(c) == Turns(b) + Skipped(at, j + 1) / 65536;
  }

  lemma {:induction false} SwapTurns(at: seq<int>, j: nat)
    requires CloseAround(at, j)
    ensures Turns(Swap(at, j)) == Turns(at) - 1
  {
    var n, sw := |at| - 1, Swap(at, j);
    if n == j + 2 {
      TurnsOfFour(at, j);
      TurnsOfFour(sw, j);
      assert sw[..j] == at[..j];
    } else {
      SwapTurns(at[..n], j);
      assert sw[..n] == Swap(at[..n], j);
    }
  }

  lemma {:induction false} SwapUnwrapped(evs: seq<Event>, at: seq<int>, j: nat)
    requires Unwrapped(Packets(evs), at) && j + 1 < |evs|
    ensures Unwrapped(Packets(Swap(evs, j)), Swap(at, j))
  {
    var ps, sw := Packets(Swap(evs, j)), Swap(at, j);
    forall i | 0 <= i < |ps| ensures ps[i].seqNo == sw[i] % 65536 {
      assert ps[i] == Swap(evs, j)[i].pkt;
    }
  }

  /** In any run: exchanging two neighbours that arrive in order, nothing else changed, adds exactly a
      cycle of 65536 to the drop count. */
  lemma {:induction false} SwapCountsACycle(cb: Callbacks, evs: seq<Event>, at: seq<int>, j: nat)
    requires Unwrapped(Packets(evs), at) && CloseAround(at, j)
    ensures Run(cb, Swap(evs, j)).rx.dropCount == Run(cb, evs).rx.dropCount + 65536
  {
    SwapUnwrapped(evs, at, j);
    DropCountIsNetLoss(cb, evs, at);
    DropCountIsNetLoss(cb, Swap(evs, j), Swap(at, j));
    SwapTurns(at, j);
  }
}
