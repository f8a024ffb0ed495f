/** What whole runs of the frame assembler deliver: nothing but frame tails under arbitrary loss,
    reordering and duplication, and everything when nothing is lost. */
module FrameRuns {
  import opened Rtp
  import opened FrameAssembler
  import opened Seqs

  // ---------- Sent frames and deliveries ----------

  /** The place of a packet in what the camera sent. */
  datatype Place = Place(frame: nat, index: nat)

  predicate IsPlace(frames: seq<seq<Packet>>, a: Place) {
    a.frame < |frames| && a.index < |frames[a.frame]|
  }

  function Sent(frames: seq<seq<Packet>>, a: Place): Packet
    requires IsPlace(frames, a)
  {
    frames[a.frame][a.index]
  }

  function Successor(frames: seq<seq<Packet>>, a: Place): Place
    requires IsPlace(frames, a)
  {
    if a.index + 1 < |frames[a.frame]| then Place(a.frame, a.index + 1) else Place(a.frame + 1, 0)
  }

  /** One timestamp per frame, the marker on the last packet only, no empty payload. */
  predicate WellSent(frames: seq<seq<Packet>>) {
    forall f, k :: 0 <= f < |frames| && 0 <= k < |frames[f]| ==>
      && frames[f][k].ts == frames[f][0].ts
      && (frames[f][k].marker <==> k == |frames[f]| - 1)
      && frames[f][k].payload != []
  }

  /** Any subset of the sent packets in any order, with repeats; reception begins at a frame's first
      packet. */
  ghost predicate Reception(frames: seq<seq<Packet>>, rx: seq<Place>, evs: seq<Event>) {
    && |rx| == |evs|
    && (forall j :: 0 <= j < |rx| ==> IsPlace(frames, rx[j]) && evs[j].pkt == Sent(frames, rx[j]))
    && (rx != [] ==> rx[0].index == 0)
  }

  /** A reception in which a packet carries the next 16-bit number only if it is the true successor. */
  ghost predicate Delivery(frames: seq<seq<Packet>>, rx: seq<Place>, evs: seq<Event>) {
    && Reception(frames, rx, evs)
    && (forall j :: 0 < j < |rx| && evs[j].pkt.seqNo == NextSeq(evs[j - 1].pkt.seqNo) ==>
          rx[j] == Successor(frames, rx[j - 1]))
  }

  predicate StartsTail(frames: seq<seq<Packet>>, f: nat, k: nat)
    requires f < |frames| && k < |frames[f]|
  {
    k == 0 || IsFrameStart(frames[f][k].payload)
  }

  /** `pkts` is frame f from packet k to its marker. */
  ghost predicate IsTail(frames: seq<seq<Packet>>, pkts: seq<Packet>, f: nat, k: nat) {
    && f < |frames| && k < |frames[f]|
    && StartsTail(frames, f, k)
    && pkts == frames[f][k..]
  }

  ghost predicate OnlyTails(frames: seq<seq<Packet>>, log: seq<Batch>) {
    forall b :: b in log && b.fate.Forwarded? ==> exists f: nat, k: nat :: IsTail(frames, b.pkts, f, k)
  }

  /** The buffer is frame `a.frame` from packet k up to and including `a`. */
  ghost predicate Collecting(frames: seq<seq<Packet>>, buf: seq<Packet>, a: Place, k: nat)
    requires IsPlace(frames, a)
  {
    k <= a.index && StartsTail(frames, a.frame, k) && buf == frames[a.frame][k..a.index + 1]
  }

  /** After `a` was received: an ungapped buffer is a frame from a tail start up to `a`, or empty
      just after a marker. */
  ghost predicate TailInv(frames: seq<seq<Packet>>, s: Loop, a: Place)
    requires IsPlace(frames, a)
  {
    && OnlyTails(frames, s.log)
    && s.lastFrameTS == Sent(frames, a).ts
    && s.rx.lastSeq == Sent(frames, a).seqNo
    && s.rx.videoCount > 0
    && (Sent(frames, a).marker <==> s.buf == [])
    && (s.buf == [] ==> !s.gapped)
    && (s.buf != [] && !s.gapped ==> exists k: nat :: Collecting(frames, s.buf, a, k))
  }

  lemma OnlyTailsSnoc(frames: seq<seq<Packet>>, log: seq<Batch>, b: Batch)
    requires OnlyTails(frames, log)
    requires b.fate.Forwarded? ==> exists f: nat, k: nat :: IsTail(frames, b.pkts, f, k)
    ensures OnlyTails(frames, log + [b])
  {
  }

  /** The state between the timestamp flush and the cap. */
  ghost predicate Ready(frames: seq<seq<Packet>>, t: Loop, a: Place)
    requires IsPlace(frames, a)
  {
    && OnlyTails(frames, t.log)
    && t.lastFrameTS == Sent(frames, a).ts
    && t.rx.lastSeq == Sent(frames, a).seqNo
    && t.rx.videoCount > 0
    && (!t.gapped ==> exists k: nat :: Collecting(frames, t.buf + [Sent(frames, a)], a, k))
  }

  lemma ReadyAfterFirst(cb: Callbacks, frames: seq<seq<Packet>>, a: Place)
    requires IsPlace(frames, a) && a.index == 0
    ensures var p := Sent(frames, a); Ready(frames, TimestampFlush(cb, Account(Init, p), p), a)
  {
    assert Collecting(frames, [] + [Sent(frames, a)], a, 0);
  }

  lemma ReadyAfterSuccessor(cb: Callbacks, frames: seq<seq<Packet>>, s: Loop, a: Place, b: Place)
    requires WellSent(frames) && IsPlace(frames, a) && IsPlace(frames, b)
    requires TailInv(frames, s, a)
    requires b == Successor(frames, a) && Sent(frames, b).seqNo == NextSeq(Sent(frames, a).seqNo)
    ensures var p := Sent(frames, b); Ready(frames, TimestampFlush(cb, Account(s, p), p), b)
  {
    var p := Sent(frames, b);
    if s.buf == [] {
      assert b.index == 0;
      assert Collecting(frames, [] + [p], b, 0);
    } else {
      assert b == Place(a.frame, a.index + 1) && p.ts == s.lastFrameTS;
      if !s.gapped {
        var k: nat :| Collecting(frames, s.buf, a, k);
        SliceSnoc(frames[a.frame], k, b.index);
        assert Collecting(frames, s.buf + [p], b, k);
      }
    }
  }

  lemma ReadyAfterGap(cb: Callbacks, frames: seq<seq<Packet>>, s: Loop, a: Place, b: Place)
    requires WellSent(frames) && IsPlace(frames, a) && IsPlace(frames, b)
    requires TailInv(frames, s, a)
    requires Sent(frames, b).seqNo != NextSeq(Sent(frames, a).seqNo)
    ensures var p := Sent(frames, b); Ready(frames, TimestampFlush(cb, Account(s, p), p), b)
  {
    var p := Sent(frames, b);
    var acc := Account(s, p);
    OnlyTailsSnoc(frames, s.log, Batch(FateOf(cb, acc), acc.buf));
    if p.ts != acc.lastFrameTS && acc.buf != [] && IsFrameStart(p.payload) {
      assert Collecting(frames, [] + [p], b, b.index);
    }
  }

  lemma TailInvAfterBuffering(cb: Callbacks, frames: seq<seq<Packet>>, t: Loop, a: Place, tick: bool)
    requires WellSent(frames) && IsPlace(frames, a)
    requires Ready(frames, t, a)
    ensures var p := Sent(frames, a);
            TailInv(frames, MarkerFlush(cb, Report(cb, Buffer(Cap(t), p), tick), p), a)
  {
    var p := Sent(frames, a);
    OnlyTailsSnoc(frames, t.log, Batch(Overflowed, t.buf));
    var r := Report(cb, Buffer(Cap(t), p), tick);
    assert OnlyTails(frames, r.log);
    assert r.buf != [];
    if !r.gapped {
      var k: nat :| Collecting(frames, t.buf + [p], a, k);
      assert Collecting(frames, r.buf, a, k);
      if p.marker {
        assert IsTail(frames, r.buf, a.frame, k);
      }
    }
    if p.marker {
      OnlyTailsSnoc(frames, r.log, Batch(FateOf(cb, r), r.buf));
    }
  }

  lemma TailInvFirst(cb: Callbacks, frames: seq<seq<Packet>>, a: Place, e: Event)
    requires WellSent(frames) && IsPlace(frames, a) && a.index == 0 && e.pkt == Sent(frames, a)
    ensures TailInv(frames, Step(cb, Init, e), a)
  {
    ReadyAfterFirst(cb, frames, a);
    TailInvAfterBuffering(cb, frames, TimestampFlush(cb, Account(Init, e.pkt), e.pkt), a, e.tick);
  }

  lemma TailInvStep(cb: Callbacks, frames: seq<seq<Packet>>, s: Loop, a: Place, b: Place, e: Event)
    requires WellSent(frames) && IsPlace(frames, a) && IsPlace(frames, b) && e.pkt == Sent(frames, b)
    requires TailInv(frames, s, a)
    requires e.pkt.seqNo == NextSeq(Sent(frames, a).seqNo) ==> b == Successor(frames, a)
    ensures TailInv(frames, Step(cb, s, e), b)
  {
    if e.pkt.seqNo == NextSeq(Sent(frames, a).seqNo) {
      ReadyAfterSuccessor(cb, frames, s, a, b);
    } else {
      ReadyAfterGap(cb, frames, s, a, b);
    }
    TailInvAfterBuffering(cb, frames, TimestampFlush(cb, Account(s, e.pkt), e.pkt), b, e.tick);
  }

  lemma DeliveryPrefix(frames: seq<seq<Packet>>, rx: seq<Place>, evs: seq<Event>)
    requires Delivery(frames, rx, evs) && |rx| > 1
    ensures var n := |rx| - 1; Delivery(frames, rx[..n], evs[..n])
  {
  }

  lemma {:induction false} TailInvHolds(cb: Callbacks, frames: seq<seq<Packet>>, rx: seq<Place>, evs: seq<Event>)
    requires WellSent(frames) && Delivery(frames, rx, evs) && rx != []
    ensures TailInv(frames, Run(cb, evs), rx[|rx| - 1])
  {
    var n := |rx| - 1;
    if n == 0 {
      assert evs == [] + [evs[0]];
      RunFromSnoc(cb, Init, [], evs[0]);
      TailInvFirst(cb, frames, rx[0], evs[0]);
    } else {
      DeliveryPrefix(frames, rx, evs);
      TailInvHolds(cb, frames, rx[..n], evs[..n]);
      TailInvStep(cb, frames, Run(cb, evs[..n]), rx[n - 1], rx[n], evs[n]);
    }
  }

  /** Every forwarded batch is one sent frame from its first packet, or from a later packet that
      passes IsFrameStart, up to the marker. */
  lemma ForwardedAreFrameTails(cb: Callbacks, frames: seq<seq<Packet>>, rx: seq<Place>, evs: seq<Event>)
    requires WellSent(frames) && Delivery(frames, rx, evs)
    ensures OnlyTails(frames, Run(cb, evs).log)
  {
    if rx != [] {
      TailInvHolds(cb, frames, rx, evs);
    }
  }

  /** If only a frame's first packet can pass IsFrameStart, every forwarded batch is a whole frame. */
  lemma ForwardedAreWholeFrames(cb: Callbacks, frames: seq<seq<Packet>>, rx: seq<Place>, evs: seq<Event>)
    requires WellSent(frames) && Delivery(frames, rx, evs)
    requires forall f, k :: 0 <= f < |frames| && 0 < k < |frames[f]| ==> !IsFrameStart(frames[f][k].payload)
    ensures forall b :: b in Run(cb, evs).log && b.fate.Forwarded? ==> b.pkts in frames
  {
    ForwardedAreFrameTails(cb, frames, rx, evs);
    forall b | b in Run(cb, evs).log && b.fate.Forwarded? ensures b.pkts in frames {
      var f: nat, k: nat :| IsTail(frames, b.pkts, f, k);
      assert k == 0;
      assert frames[f][0..] == frames[f];
    }
  }

  // ---------- Every batch, whatever arrives ----------

  /** Packets of one timestamp, at most the last of them marked. */
  predicate OneFrame(ps: seq<Packet>, ts: U32) {
    && (forall i :: 0 <= i < |ps| ==> ps[i].ts == ts)
    && (forall i :: 0 <= i < |ps| - 1 ==> !ps[i].marker)
  }

  /** Consecutive 16-bit numbers. */
  predicate Contiguous(ps: seq<Packet>) {
    forall i :: 0 < i < |ps| ==> ps[i].seqNo == (ps[i - 1].seqNo + 1) % 65536
  }

  ghost predicate Shaped(cb: Callbacks, b: Batch) {
    && 0 < |b.pkts| <= 300
    && OneFrame(b.pkts, b.pkts[0].ts)
    && (b.fate.Forwarded? || b.fate.Unclaimed? ==> Contiguous(b.pkts) && (b.fate.Forwarded? <==> cb.onVideo))
    && (b.fate.CachedOnly? ==> cb.onIDR && IsStapA(b.pkts[0].payload))
    && (b.fate.Dropped? ==> !cb.onIDR || !IsStapA(b.pkts[0].payload))
  }

  ghost predicate AllShaped(cb: Callbacks, log: seq<Batch>) {
    forall i :: 0 <= i < |log| ==> Shaped(cb, log[i])
  }

  /** The buffer while it fills: one frame so far, unbroken unless the gap flag is up. */
  ghost predicate Filling(s: Loop) {
    && |s.buf| <= BUFFER_CAP
    && OneFrame(s.buf, s.lastFrameTS)
    && (!s.gapped ==> Contiguous(s.buf))
    && (s.buf != [] ==> s.rx.videoCount > 0 && s.buf[|s.buf| - 1].seqNo == s.rx.lastSeq)
    && (s.buf != [] ==> !s.buf[|s.buf| - 1].marker)
  }

  lemma AllShapedSnoc(cb: Callbacks, log: seq<Batch>, b: Batch)
    requires AllShaped(cb, log) && Shaped(cb, b)
    ensures AllShaped(cb, log + [b])
  {
  }

  lemma FlushShaped(cb: Callbacks, s: Loop)
    requires AllShaped(cb, s.log) && 0 < |s.buf| <= BUFFER_CAP && OneFrame(s.buf, s.lastFrameTS)
    requires !s.gapped ==> Contiguous(s.buf)
    ensures AllShaped(cb, Flush(cb, s).log)
  {
    AllShapedSnoc(cb, s.log, Batch(FateOf(cb, s), s.buf));
  }

  /** After the timestamp flush and the cap: the buffer may take p. */
  ghost predicate Takes(s: Loop, p: Packet) {
    && |s.buf| < BUFFER_CAP
    && OneFrame(s.buf + [p], p.ts)
    && (!s.gapped ==> Contiguous(s.buf + [p]))
    && s.lastFrameTS == p.ts && s.rx.lastSeq == p.seqNo && s.rx.videoCount > 0
  }

  lemma TimestampFlushShaped(cb: Callbacks, s: Loop, p: Packet)
    requires AllShaped(cb, s.log) && Filling(s)
    ensures var t := Cap(TimestampFlush(cb, Account(s, p), p)); AllShaped(cb, t.log) && Takes(t, p)
  {
    var a := Account(s, p);
    if p.ts != a.lastFrameTS && a.buf != [] {
      FlushShaped(cb, a);
    }
    var t := TimestampFlush(cb, a, p);
    assert AllShaped(cb, t.log);
    if |t.buf| >= BUFFER_CAP {
      AllShapedSnoc(cb, t.log, Batch(Overflowed, t.buf));
    }
  }

  lemma BufferShaped(cb: Callbacks, t: Loop, p: Packet, tick: bool)
    requires AllShaped(cb, t.log) && Takes(t, p)
    ensures var r := MarkerFlush(cb, Report(cb, Buffer(t, p), tick), p); AllShaped(cb, r.log) && Filling(r)
  {
    var r := Report(cb, Buffer(t, p), tick);
    assert r.buf == t.buf + [p] && r.log == t.log;
    if p.marker {
      FlushShaped(cb, r);
    }
  }

  /** Under any arrivals at all: every batch that leaves the buffer is 1 to 300 packets of one
      timestamp with at most the last one marked; a forwarded one has consecutive numbers; a gapped one
      goes to the IDR cache exactly if it begins with a STAP-A and there is a cache to take it. */
  lemma {:induction false} BatchesAreFrames(cb: Callbacks, evs: seq<Event>)
    ensures AllShaped(cb, Run(cb, evs).log) && Filling(Run(cb, evs))
  {
    if evs == [] {
    } else {
      var n := |evs| - 1;
      var s, e := Run(cb, evs[..n]), evs[n];
      BatchesAreFrames(cb, evs[..n]);
      TimestampFlushShaped(cb, s, e.pkt);
      BufferShaped(cb, Cap(TimestampFlush(cb, Account(s, e.pkt), e.pkt)), e.pkt, e.tick);
    }
  }

  // ---------- Runs that break the claim without its side conditions ----------

  /** Receive the first packet of frame g, then frame f from packet k on. */
  function LeakPlaces(g: nat, f: nat, k: nat, m: nat): (rx: seq<Place>)
    ensures |rx| == m + 1 && rx[0] == Place(g, 0)
    ensures forall j :: 0 < j <= m ==> rx[j] == Place(f, k + j - 1)
  {
    if m == 0 then [Place(g, 0)] else LeakPlaces(g, f, k, m - 1) + [Place(f, k + m - 1)]
  }

  function LeakEvents(frames: seq<seq<Packet>>, g: nat, f: nat, k: nat, m: nat): (evs: seq<Event>)
    requires IsPlace(frames, Place(g, 0)) && f < |frames| && k + m <= |frames[f]|
    ensures |evs| == m + 1 && evs[0] == Event(frames[g][0], false)
    ensures forall j :: 0 < j <= m ==> evs[j] == Event(frames[f][k + j - 1], false)
  {
    if m == 0 then [Event(frames[g][0], false)]
    else LeakEvents(frames, g, f, k, m - 1) + [Event(frames[f][k + m - 1], false)]
  }

  /** Frame f can lose its first k packets unnoticed behind the first packet of frame g. */
  ghost predicate Leaky(frames: seq<seq<Packet>>, g: nat, f: nat, k: nat) {
    && g < |frames| && |frames[g]| > 1
    && f < |frames| && 0 < k < |frames[f]| <= k + BUFFER_CAP
    && IsFrameStart(frames[f][k].payload)
    && frames[g][0].ts != frames[f][k].ts
    && frames[f][k].seqNo != NextSeq(frames[g][0].seqNo)
    && (forall j :: k < j < |frames[f]| ==> frames[f][j].seqNo == NextSeq(frames[f][j - 1].seqNo))
  }

  /** State while the tail of frame f arrives: m of its packets collected, no gap on record. */
  ghost predicate Leaking(frames: seq<seq<Packet>>, s: Loop, f: nat, k: nat, m: nat)
    requires f < |frames| && 0 < m && k + m <= |frames[f]|
  {
    var last := frames[f][k + m - 1];
    && s.rx.videoCount > 0 && s.rx.lastSeq == last.seqNo && s.lastFrameTS == last.ts
    && if last.marker then Batch(Forwarded, frames[f][k..]) in s.log
       else !s.gapped && s.buf == frames[f][k..k + m]
  }

  lemma LeakStart(cb: Callbacks, frames: seq<seq<Packet>>, g: nat, f: nat, k: nat)
    requires cb.onVideo && WellSent(frames) && Leaky(frames, g, f, k)
    ensures Leaking(frames, Run(cb, LeakEvents(frames, g, f, k, 1)), f, k, 1)
  {
    var e0, e1 := Event(frames[g][0], false), Event(frames[f][k], false);
    RunFromSnoc(cb, Init, [], e0);
    RunFromSnoc(cb, Init, [e0], e1);
    assert [] + [e0] == [e0] && LeakEvents(frames, g, f, k, 1) == [e0] + [e1];
    var s := Step(cb, Init, e0);
    assert s.buf == [e0.pkt] && s.lastFrameTS == e0.pkt.ts && s.rx == Count(InitRx, e0.pkt);
    var t := TimestampFlush(cb, Account(s, e1.pkt), e1.pkt);
    assert t.buf == [] && !t.gapped && t.lastFrameTS == e1.pkt.ts;
    assert [] + [e1.pkt] == frames[f][k..k + 1];
    var r := Report(cb, Buffer(Cap(t), e1.pkt), false);
    if e1.pkt.marker {
      assert r.buf == frames[f][k..];
      assert Batch(FateOf(cb, r), r.buf) in Flush(cb, r).log;
    }
  }

  lemma LeakStep(cb: Callbacks, frames: seq<seq<Packet>>, s: Loop, f: nat, k: nat, m: nat)
    requires cb.onVideo && WellSent(frames) && f < |frames| && 0 < m && k + m < |frames[f]| <= k + BUFFER_CAP
    requires frames[f][k + m].seqNo == NextSeq(frames[f][k + m - 1].seqNo)
    requires Leaking(frames, s, f, k, m)
    ensures Leaking(frames, Step(cb, s, Event(frames[f][k + m], false)), f, k, m + 1)
  {
    var p := frames[f][k + m];
    assert !frames[f][k + m - 1].marker && p.ts == frames[f][k + m - 1].ts;
    var t := TimestampFlush(cb, Account(s, p), p);
    assert t.buf == s.buf && !t.gapped;
    assert s.buf + [p] == frames[f][k..k + m + 1];
    var r := Report(cb, Buffer(Cap(t), p), false);
    assert r.buf == s.buf + [p] && !r.gapped;
    if p.marker {
      assert frames[f][k..k + m + 1] == frames[f][k..];
      assert Batch(FateOf(cb, r), r.buf) in Flush(cb, r).log;
    }
  }

  lemma {:induction false} LeakRun(cb: Callbacks, frames: seq<seq<Packet>>, g: nat, f: nat, k: nat, m: nat)
    requires cb.onVideo && WellSent(frames) && Leaky(frames, g, f, k) && 0 < m && k + m <= |frames[f]|
    ensures Leaking(frames, Run(cb, LeakEvents(frames, g, f, k, m)), f, k, m)
  {
    if m == 1 {
      LeakStart(cb, frames, g, f, k);
    } else {
      LeakRun(cb, frames, g, f, k, m - 1);
      var evs := LeakEvents(frames, g, f, k, m - 1);
      LeakStep(cb, frames, Run(cb, evs), f, k, m - 1);
      RunFromSnoc(cb, Init, evs, Event(frames[f][k + m - 1], false));
    }
  }

  /** The condition on inner frame starts cannot be dropped: whenever a later packet passes
      IsFrameStart (STAP-A then FU-A start) and another frame with a different timestamp can precede
      it, some delivery forwards that frame without its first packets. */
  lemma InnerStartLeaksTail(cb: Callbacks, frames: seq<seq<Packet>>, g: nat, f: nat, k: nat)
    requires cb.onVideo && WellSent(frames) && Leaky(frames, g, f, k)
    ensures exists rx, evs :: Delivery(frames, rx, evs) && Batch(Forwarded, frames[f][k..]) in Run(cb, evs).log
  {
    var m := |frames[f]| - k;
    var rx, evs := LeakPlaces(g, f, k, m), LeakEvents(frames, g, f, k, m);
    LeakRun(cb, frames, g, f, k, m);
    forall j | 0 < j < |rx| && evs[j].pkt.seqNo == NextSeq(evs[j - 1].pkt.seqNo)
      ensures rx[j] == Successor(frames, rx[j - 1])
    {
      assert j > 1;
    }
    assert Delivery(frames, rx, evs);
  }

  /** The first m packets of frame f, and their places. */
  function HeadEvents(frames: seq<seq<Packet>>, f: nat, m: nat): (evs: seq<Event>)
    requires f < |frames| && m <= |frames[f]|
    ensures |evs| == m
    ensures forall i :: 0 <= i < m ==> evs[i] == Event(frames[f][i], false)
  {
    seq(m, i requires 0 <= i < m => Event(frames[f][i], false))
  }

  function HeadPlaces(f: nat, m: nat): (rx: seq<Place>)
    ensures |rx| == m
    ensures forall i :: 0 <= i < m ==> rx[i] == Place(f, i)
  {
    seq(m, i requires 0 <= i < m => Place(f, i))
  }

  /** The buffer holds the first m packets of frame f, and nothing looks amiss. */
  ghost predicate HeadBuffered(frames: seq<seq<Packet>>, s: Loop, f: nat, m: nat)
    requires f < |frames| && 0 < m <= |frames[f]|
  {
    && s.buf == frames[f][..m] && !s.gapped && s.log == []
    && s.lastFrameTS == frames[f][0].ts
    && s.rx == Rx(m, frames[f][m - 1].seqNo, 0, 0)
  }

  /** Frame f has m unmarked packets of consecutive numbers in front, and the buffer has room for them. */
  predicate HasHead(frames: seq<seq<Packet>>, f: nat, m: nat) {
    && f < |frames| && 0 < m < |frames[f]| && m <= BUFFER_CAP
    && Contiguous(frames[f][..m])
  }

  lemma HeadStart(cb: Callbacks, frames: seq<seq<Packet>>, f: nat)
    requires WellSent(frames) && HasHead(frames, f, 1)
    ensures HeadBuffered(frames, Step(cb, Init, Event(frames[f][0], false)), f, 1)
  {
    assert frames[f][..1] == [] + [frames[f][0]];
  }

  lemma HeadStep(cb: Callbacks, frames: seq<seq<Packet>>, s: Loop, f: nat, m: nat)
    requires WellSent(frames) && 0 < m && HasHead(frames, f, m + 1) && HeadBuffered(frames, s, f, m)
    ensures HeadBuffered(frames, Step(cb, s, Event(frames[f][m], false)), f, m + 1)
  {
    var p := frames[f][m];
    var head := frames[f][..m + 1];
    assert head[m].seqNo == NextSeq(head[m - 1].seqNo);
    assert head == frames[f][..m] + [p];
    assert TimestampFlush(cb, Account(s, p), p).buf == s.buf;
  }

  lemma ShorterHead(frames: seq<seq<Packet>>, f: nat, m: nat)
    requires 1 < m && HasHead(frames, f, m)
    ensures HasHead(frames, f, m - 1)
  {
    var head, less := frames[f][..m], frames[f][..m - 1];
    forall i | 0 < i < |less| ensures less[i].seqNo == NextSeq(less[i - 1].seqNo) {
      assert less[i] == head[i] && less[i - 1] == head[i - 1];
    }
  }

  lemma HeadSnoc(cb: Callbacks, frames: seq<seq<Packet>>, f: nat, m: nat)
    requires f < |frames| && m < |frames[f]|
    ensures Run(cb, HeadEvents(frames, f, m + 1)) == Step(cb, Run(cb, HeadEvents(frames, f, m)), Event(frames[f][m], false))
  {
    var evs := HeadEvents(frames, f, m);
    assert HeadEvents(frames, f, m + 1) == evs + [Event(frames[f][m], false)];
    RunFromSnoc(cb, Init, evs, Event(frames[f][m], false));
  }

  lemma {:induction false} HeadRun(cb: Callbacks, frames: seq<seq<Packet>>, f: nat, m: nat)
    requires WellSent(frames) && HasHead(frames, f, m)
    ensures HeadBuffered(frames, Run(cb, HeadEvents(frames, f, m)), f, m)
  {
    HeadSnoc(cb, frames, f, m - 1);
    if m == 1 {
      assert HeadEvents(frames, f, 0) == [];
      HeadStart(cb, frames, f);
    } else {
      ShorterHead(frames, f, m);
      HeadRun(cb, frames, f, m - 1);
      HeadStep(cb, frames, Run(cb, HeadEvents(frames, f, m - 1)), f, m - 1);
    }
  }

  /** A next packet whose number raises no alarm: the buffered packets are forwarded alone if the
      timestamp moves on, together with a marked packet of the same timestamp if there is room. */
  lemma AgreeableStep(cb: Callbacks, s: Loop, e: Event)
    requires cb.onVideo && !e.tick && !s.gapped && s.buf != [] && s.log == [] && s.rx.videoCount > 0 && !IsGap(s.rx, e.pkt)
    ensures var r := Step(cb, s, e);
            && r.rx.dropCount == s.rx.dropCount && r.rx.gapEvents == s.rx.gapEvents
            && (e.pkt.ts != s.lastFrameTS ==> Batch(Forwarded, s.buf) in r.log)
            && (e.pkt.ts == s.lastFrameTS && e.pkt.marker && |s.buf| < BUFFER_CAP ==>
                  Batch(Forwarded, s.buf + [e.pkt]) in r.log)
  {
    var t := TimestampFlush(cb, Account(s, e.pkt), e.pkt);
    if e.pkt.ts != s.lastFrameTS {
      assert t.log == [] + [Batch(Forwarded, s.buf)];
      assert t.log[0] in Step(cb, s, e).log;
    } else if e.pkt.marker && |s.buf| < BUFFER_CAP {
      assert Step(cb, s, e).log == [] + [Batch(Forwarded, s.buf + [e.pkt])];
      assert Step(cb, s, e).log[0] in Step(cb, s, e).log;
    }
  }

  /** One whose number does, with another timestamp: the buffered packets are not forwarded. */
  lemma AlarmingStep(cb: Callbacks, s: Loop, e: Event)
    requires !e.tick && s.buf != [] && s.log == [] && IsGap(s.rx, e.pkt) && e.pkt.ts != s.lastFrameTS
    requires s.buf[0].ts == s.lastFrameTS
    ensures Batch(Forwarded, s.buf) !in Step(cb, s, e).log
  {
    var t := TimestampFlush(cb, Account(s, e.pkt), e.pkt);
    assert t.log == [] + [Batch(FateOf(cb, Account(s, e.pkt)), s.buf)] && t.buf == [];
    var r := Report(cb, Buffer(Cap(t), e.pkt), false);
    assert r.buf == [e.pkt] && r.log == t.log;
  }

  /** Received frame a.frame up to a, without its marker, and then b, which is not a's successor. */
  ghost predicate CutShort(frames: seq<seq<Packet>>, a: Place, b: Place) {
    && IsPlace(frames, b)
    && HasHead(frames, a.frame, a.index + 1)
    && b != Successor(frames, a)
  }

  /** The events and the packets of frame a.frame up to a. */
  function HeadThen(frames: seq<seq<Packet>>, a: Place, b: Place): seq<Event>
    requires IsPlace(frames, a) && IsPlace(frames, b)
  {
    HeadEvents(frames, a.frame, a.index + 1) + [Event(Sent(frames, b), false)]
  }

  function Head(frames: seq<seq<Packet>>, a: Place): seq<Packet>
    requires IsPlace(frames, a)
  {
    frames[a.frame][..a.index + 1]
  }

  lemma HeadIsNoTail(frames: seq<seq<Packet>>, a: Place, log: seq<Batch>)
    requires WellSent(frames) && HasHead(frames, a.frame, a.index + 1) && Batch(Forwarded, Head(frames, a)) in log
    ensures !OnlyTails(frames, log)
  {
    var head := Head(frames, a);
    assert !head[|head| - 1].marker;
    forall f: nat, k: nat ensures !IsTail(frames, head, f, k) {
      if f < |frames| && k < |frames[f]| {
        var tail := frames[f][k..];
        assert tail[|tail| - 1] == frames[f][|frames[f]| - 1];
      }
    }
    assert Batch(Forwarded, head).pkts == head;
  }

  lemma HeadThenRuns(cb: Callbacks, frames: seq<seq<Packet>>, a: Place, b: Place)
    requires WellSent(frames) && CutShort(frames, a, b)
    ensures var s := Run(cb, HeadEvents(frames, a.frame, a.index + 1));
            && HeadBuffered(frames, s, a.frame, a.index + 1)
            && Run(cb, HeadThen(frames, a, b)) == Step(cb, s, Event(Sent(frames, b), false))
  {
    HeadRun(cb, frames, a.frame, a.index + 1);
    RunFromSnoc(cb, Init, HeadEvents(frames, a.frame, a.index + 1), Event(Sent(frames, b), false));
  }

  lemma HeadThenIsReception(frames: seq<seq<Packet>>, a: Place, b: Place)
    requires CutShort(frames, a, b)
    ensures Reception(frames, HeadPlaces(a.frame, a.index + 1) + [b], HeadThen(frames, a, b))
  {
  }

  /** A reception that is no delivery leaks. Wherever a frame is cut short and a packet other than the
      true successor comes next with the next number, the packets before it are forwarded without the
      rest of their frame, or mixed with the end of another frame that shares their timestamp. */
  lemma WrongSuccessorLeaksHead(cb: Callbacks, frames: seq<seq<Packet>>, a: Place, b: Place)
    requires cb.onVideo && WellSent(frames) && CutShort(frames, a, b)
    requires Sent(frames, b).seqNo == NextSeq(Sent(frames, a).seqNo)
    ensures var pa, pb := Sent(frames, a), Sent(frames, b);
            var log := Run(cb, HeadThen(frames, a, b)).log;
            && Reception(frames, HeadPlaces(a.frame, a.index + 1) + [b], HeadThen(frames, a, b))
            && (pb.ts != pa.ts ==> Batch(Forwarded, Head(frames, a)) in log && !OnlyTails(frames, log))
            && (pb.ts == pa.ts && pb.marker && a.index + 1 < BUFFER_CAP ==>
                  Batch(Forwarded, Head(frames, a) + [pb]) in log)
  {
    HeadThenRuns(cb, frames, a, b);
    HeadThenIsReception(frames, a, b);
    AgreeableStep(cb, Run(cb, HeadEvents(frames, a.frame, a.index + 1)), Event(Sent(frames, b), false));
    if Sent(frames, b).ts != Sent(frames, a).ts {
      HeadIsNoTail(frames, a, Run(cb, HeadThen(frames, a, b)).log);
    }
  }

  // ---------- Consecutively numbered streams ----------

  /** Packets the camera sent before frame f. */
  function SentBefore(frames: seq<seq<Packet>>, f: nat): nat
    requires f <= |frames|
  {
    if f == 0 then 0 else SentBefore(frames, f - 1) + |frames[f - 1]|
  }

  /** The camera numbers its packets consecutively modulo 2^16. */
  predicate Numbered(frames: seq<seq<Packet>>, first: Seq16) {
    forall f, k :: 0 <= f < |frames| && 0 <= k < |frames[f]| ==>
      frames[f][k].seqNo == (first + SentBefore(frames, f) + k) % 65536
  }

  function Position(frames: seq<seq<Packet>>, a: Place): nat
    requires IsPlace(frames, a)
  {
    SentBefore(frames, a.frame) + a.index
  }

  /** Packets skipped between a and b; below zero if b was sent at or before a. */
  function Between(frames: seq<seq<Packet>>, a: Place, b: Place): int
    requires IsPlace(frames, a) && IsPlace(frames, b)
  {
    Position(frames, b) - Position(frames, a) - 1
  }

  lemma NextModulo(x: int, y: int)
    ensures y % SEQ_MOD == NextSeq(x % SEQ_MOD) <==> (y - x - 1) % SEQ_MOD == 0
  {
  }

  /** b carries the number after a's if and only if a whole number of cycles lies between them. */
  lemma NextNumberIff(frames: seq<seq<Packet>>, first: Seq16, a: Place, b: Place)
    requires Numbered(frames, first) && IsPlace(frames, a) && IsPlace(frames, b)
    ensures Sent(frames, b).seqNo == (Sent(frames, a).seqNo + 1) % 65536 <==> Between(frames, a, b) % 65536 == 0
  {
    NextModulo(first + Position(frames, a), first + Position(frames, b));
  }

  lemma NumberedHead(frames: seq<seq<Packet>>, first: Seq16, f: nat, m: nat)
    requires Numbered(frames, first) && f < |frames| && 0 < m < |frames[f]| && m <= BUFFER_CAP
    ensures HasHead(frames, f, m)
  {
    forall i | 0 < i < m ensures frames[f][..m][i].seqNo == NextSeq(frames[f][..m][i - 1].seqNo) {
      NextNumberIff(frames, first, Place(f, i - 1), Place(f, i));
    }
  }

  /** On a consecutively numbered stream, a frame is cut short after a and a packet b with another timestamp
      comes next: what was received of the frame is forwarded, with drop count and gap count still 0, if
      and only if the packets between a and b, counted forwards or backwards, make whole cycles of 65536. */
  lemma CutGoesUnnoticedIff(cb: Callbacks, frames: seq<seq<Packet>>, first: Seq16, a: Place, b: Place)
    requires cb.onVideo && WellSent(frames) && Numbered(frames, first)
    requires IsPlace(frames, a) && IsPlace(frames, b) && a.index + 1 < |frames[a.frame]| && a.index < BUFFER_CAP
    requires Sent(frames, b).ts != Sent(frames, a).ts
    ensures var r := Run(cb, HeadThen(frames, a, b));
            && (Batch(Forwarded, Head(frames, a)) in r.log <==> Between(frames, a, b) % 65536 == 0)
            && (Batch(Forwarded, Head(frames, a)) in r.log ==>
                  !OnlyTails(frames, r.log) && r.rx.dropCount == 0 && r.rx.gapEvents == 0)
  {
    NumberedHead(frames, first, a.frame, a.index + 1);
    NextNumberIff(frames, first, a, b);
    HeadThenRuns(cb, frames, a, b);
    var s, e := Run(cb, HeadEvents(frames, a.frame, a.index + 1)), Event(Sent(frames, b), false);
    if Between(frames, a, b) % 65536 == 0 {
      AgreeableStep(cb, s, e);
      HeadIsNoTail(frames, a, Step(cb, s, e).log);
    } else {
      AlarmingStep(cb, s, e);
    }
  }

  /** On a consecutively numbered stream nothing but an inner frame start is needed: any tail of at most 300
      packets that begins with one can be forwarded alone behind the first packet of any frame of several packets
      that differs in its timestamp and lies no whole cycles away. */
  lemma InnerStartLeaksBehindFrame(cb: Callbacks, frames: seq<seq<Packet>>, first: Seq16, g: nat, f: nat, k: nat)
    requires cb.onVideo && WellSent(frames) && Numbered(frames, first)
    requires f < |frames| && 0 < k < |frames[f]| <= k + BUFFER_CAP && IsFrameStart(frames[f][k].payload)
    requires g < |frames| && 1 < |frames[g]| && frames[g][0].ts != frames[f][k].ts
    requires Between(frames, Place(g, 0), Place(f, k)) % SEQ_MOD != 0
    ensures exists rx, evs :: Delivery(frames, rx, evs) && Batch(Forwarded, frames[f][k..]) in Run(cb, evs).log
  {
    NextNumberIff(frames, first, Place(g, 0), Place(f, k));
    forall j | k < j < |frames[f]| ensures frames[f][j].seqNo == NextSeq(frames[f][j - 1].seqNo) {
      NextNumberIff(frames, first, Place(f, j - 1), Place(f, j));
    }
    InnerStartLeaksTail(cb, frames, g, f, k);
  }

  // ---------- When every forwarded batch is a whole frame ----------

  /** At least two frames, each of several packets but less than half a number cycle; neighbours differ in
      their timestamps. */
  predicate Ordinary(frames: seq<seq<Packet>>) {
    && |frames| >= 2
    && (forall f :: 0 <= f < |frames| ==> 2 <= |frames[f]| < SEQ_MOD / 2)
    && (forall f :: 0 < f < |frames| ==> frames[f - 1][0].ts != frames[f][0].ts)
  }

  ghost predicate OnlyWholeFrames(frames: seq<seq<Packet>>, log: seq<Batch>) {
    forall b :: b in log && b.fate.Forwarded? ==> b.pkts in frames
  }

  /** A packet inside a frame that looks like a frame start, with a tail that fits the buffer. */
  predicate InnerStart(frames: seq<seq<Packet>>, f: nat, k: nat) {
    f < |frames| && 0 < k < |frames[f]| <= k + BUFFER_CAP && IsFrameStart(frames[f][k].payload)
  }

  lemma TailsThatAreFrames(cb: Callbacks, frames: seq<seq<Packet>>, rx: seq<Place>, evs: seq<Event>)
    requires WellSent(frames) && Delivery(frames, rx, evs)
    requires forall f: nat, k: nat :: InnerStart(frames, f, k) ==> frames[f][k..] in frames
    ensures OnlyWholeFrames(frames, Run(cb, evs).log)
  {
    ForwardedAreFrameTails(cb, frames, rx, evs);
    BatchesAreFrames(cb, evs);
    forall b | b in Run(cb, evs).log && b.fate.Forwarded? ensures b.pkts in frames {
      var f: nat, k: nat :| IsTail(frames, b.pkts, f, k);
      assert Shaped(cb, b);
      assert frames[f][0..] == frames[f];
      assert k > 0 ==> InnerStart(frames, f, k);
    }
  }

  lemma LessThanCycle(x: int)
    requires -SEQ_MOD < x < SEQ_MOD && x != 0
    ensures x % SEQ_MOD != 0
  {
  }

  /** A neighbour of frame f: the one before it, or the second frame for the first. */
  function Neighbour(f: nat): nat {
    if f == 0 then 1 else f - 1
  }

  lemma NeighbourIsNear(frames: seq<seq<Packet>>, f: nat, k: nat)
    requires Ordinary(frames) && IsPlace(frames, Place(f, k)) && k > 0
    ensures IsPlace(frames, Place(Neighbour(f), 0))
    ensures Between(frames, Place(Neighbour(f), 0), Place(f, k)) % SEQ_MOD != 0
  {
    var lo := if f == 0 then 0 else f - 1;
    assert SentBefore(frames, lo + 1) == SentBefore(frames, lo) + |frames[lo]|;
    LessThanCycle(Between(frames, Place(Neighbour(f), 0), Place(f, k)));
  }

  lemma InnerStartLeaks(cb: Callbacks, frames: seq<seq<Packet>>, first: Seq16, f: nat, k: nat)
    requires cb.onVideo && WellSent(frames) && Numbered(frames, first) && Ordinary(frames) && InnerStart(frames, f, k)
    ensures exists rx, evs :: Delivery(frames, rx, evs) && Batch(Forwarded, frames[f][k..]) in Run(cb, evs).log
  {
    NeighbourIsNear(frames, f, k);
    assert frames[f][k].ts == frames[f][0].ts;
    InnerStartLeaksBehindFrame(cb, frames, first, Neighbour(f), f, k);
  }

  /** On ordinary, consecutively numbered streams: every delivery forwards whole frames only, if and only if
      every inner frame start begins a copy of a whole frame. */
  lemma WholeFramesIff(cb: Callbacks, frames: seq<seq<Packet>>, first: Seq16)
    requires cb.onVideo && WellSent(frames) && Numbered(frames, first) && Ordinary(frames)
    ensures (forall rx, evs :: Delivery(frames, rx, evs) ==> OnlyWholeFrames(frames, Run(cb, evs).log))
            <==> (forall f: nat, k: nat :: InnerStart(frames, f, k) ==> frames[f][k..] in frames)
  {
    if forall f: nat, k: nat :: InnerStart(frames, f, k) ==> frames[f][k..] in frames {
      forall rx, evs | Delivery(frames, rx, evs) ensures OnlyWholeFrames(frames, Run(cb, evs).log) {
        TailsThatAreFrames(cb, frames, rx, evs);
      }
    }
    if forall rx, evs :: Delivery(frames, rx, evs) ==> OnlyWholeFrames(frames, Run(cb, evs).log) {
      forall f: nat, k: nat | InnerStart(frames, f, k) ensures frames[f][k..] in frames {
        InnerStartLeaks(cb, frames, first, f, k);
        var rx, evs :| Delivery(frames, rx, evs) && Batch(Forwarded, frames[f][k..]) in Run(cb, evs).log;
        assert Batch(Forwarded, frames[f][k..]).pkts == frames[f][k..];
      }
    }
  }

  // ---------- Streams that lose a cycle ----------

  /** A stream of two-packet frames: two fragments of one slice, consecutively numbered. */
  function PairFrame(f: nat): seq<Packet>
    requires f < TS_MOD
  {
    [Packet(2 * f % SEQ_MOD, f, false, 99, [28, 133]), Packet((2 * f + 1) % SEQ_MOD, f, true, 99, [28, 69])]
  }

  predicate PairStream(frames: seq<seq<Packet>>) {
    |frames| < TS_MOD && forall f :: 0 <= f < |frames| ==> frames[f] == PairFrame(f)
  }

  lemma {:induction false} SentBeforePairs(frames: seq<seq<Packet>>, f: nat)
    requires f <= |frames| && PairStream(frames)
    ensures SentBefore(frames, f) == 2 * f
  {
    if f == 0 {
    } else {
      SentBeforePairs(frames, f - 1);
      assert frames[f - 1] == PairFrame(f - 1);
    }
  }

  lemma PairStreamIsSent(frames: seq<seq<Packet>>)
    requires PairStream(frames)
    ensures WellSent(frames) && Numbered(frames, 0)
  {
    forall f, k | 0 <= f < |frames| && 0 <= k < |frames[f]|
      ensures frames[f][k].seqNo == (0 + SentBefore(frames, f) + k) % SEQ_MOD
    {
      SentBeforePairs(frames, f);
      assert frames[f] == PairFrame(f);
    }
    assert forall f :: 0 <= f < |frames| ==> frames[f] == PairFrame(f);
  }

  lemma PairStreamLosesCycle(cb: Callbacks, frames: seq<seq<Packet>>, n: nat)
    requires cb.onVideo && PairStream(frames) && 2 * n == SEQ_MOD && n < |frames|
    ensures var a, b := Place(0, 0), Place(n, 1);
            && IsPlace(frames, a) && IsPlace(frames, b) && Between(frames, a, b) == SEQ_MOD
            && !OnlyTails(frames, Run(cb, HeadThen(frames, a, b)).log)
  {
    var a, b := Place(0, 0), Place(n, 1);
    PairStreamIsSent(frames);
    SentBeforePairs(frames, n);
    assert frames[0] == PairFrame(0) && frames[n] == PairFrame(n);
    CutGoesUnnoticedIff(cb, frames, 0, a, b);
  }

  /** Such streams exist: in one of two-packet frames, the last packet of frame 32768 is a whole cycle
      behind the first packet of all. */
  lemma CycleLossIsPossible(cb: Callbacks)
    requires cb.onVideo
    ensures exists frames, a, b ::
      && WellSent(frames) && Numbered(frames, 0) && IsPlace(frames, a) && IsPlace(frames, b)
      && Between(frames, a, b) == SEQ_MOD
      && !OnlyTails(frames, Run(cb, HeadThen(frames, a, b)).log)
  {
    var n: nat := SEQ_MOD / 2;
    var frames := seq(n + 1, f requires 0 <= f < n + 1 => PairFrame(f));
    PairStreamIsSent(frames);
    PairStreamLosesCycle(cb, frames, n);
  }

  // ---------- Nothing lost: everything forwarded ----------

  predicate Clean(s: Loop) {
    !s.gapped && s.buf == []
  }

  predicate GapFree(rx: Rx, ps: seq<Packet>) {
    && (ps != [] ==> !IsGap(rx, ps[0]))
    && (forall i :: 0 < i < |ps| ==> ps[i].seqNo == NextSeq(ps[i - 1].seqNo))
  }

  /** 301 packets with one timestamp, none of the first 300 marked: no flush point among them. */
  predicate StretchAt(ps: seq<Packet>, i: nat) {
    && i + 300 < |ps|
    && (forall j :: i <= j <= i + 300 ==> ps[j].ts == ps[i].ts)
    && (forall j :: i <= j < i + 300 ==> !ps[j].marker)
  }

  ghost predicate LongStretch(ps: seq<Packet>) {
    exists i: nat :: StretchAt(ps, i)
  }

  /** Nothing dropped so far: forwarded packets, then the buffer, are the packets received. */
  ghost predicate Kept(s0: Loop, s: Loop, ps: seq<Packet>) {
    && !s.gapped
    && s.droppedFrames == s0.droppedFrames
    && ForwardedOf(s.log) + s.buf == ForwardedOf(s0.log) + ps
  }

  /** The last k packets, of timestamp ts, are those since the last flush point. */
  predicate Stretch(k: nat, ts: U32, ps: seq<Packet>) {
    var n := |ps|;
    && k <= n
    && (forall j :: n - k <= j < n ==> ps[j].ts == ts && !ps[j].marker)
    && (k == 0 && n > 0 ==> ps[n - 1].marker)
    && (0 < k < n ==> ps[n - k - 1].marker || ps[n - k - 1].ts != ts)
  }

  ghost predicate Lossless(s0: Loop, s: Loop, ps: seq<Packet>) {
    Kept(s0, s, ps) && Stretch(|s.buf|, s.lastFrameTS, ps)
  }

  function Out(s: Loop): nat {
    |ForwardedOf(s.log)| + |s.buf|
  }

  lemma FlushOut(cb: Callbacks, s: Loop)
    ensures Out(Flush(cb, s)) <= Out(s)
    ensures cb.onVideo && !s.gapped ==> ForwardedOf(Flush(cb, s).log) == ForwardedOf(s.log) + s.buf
  {
    LogSnoc(s.log, Batch(FateOf(cb, s), s.buf));
  }

  lemma CapOut(s: Loop)
    ensures Out(Cap(s)) == if |s.buf| >= BUFFER_CAP then Out(s) - |s.buf| else Out(s)
  {
    LogSnoc(s.log, Batch(Overflowed, s.buf));
  }

  /** Forwarding never outruns arrivals, and an overflow loses packets for good. */
  lemma StepOut(cb: Callbacks, s: Loop, e: Event)
    ensures var r := Step(cb, s, e);
            && Out(r) <= Out(s) + 1
            && (|TimestampFlush(cb, Account(s, e.pkt), e.pkt).buf| >= BUFFER_CAP ==> Out(r) <= Out(s))
  {
    var a := Account(s, e.pkt);
    FlushOut(cb, a);
    var t := TimestampFlush(cb, a, e.pkt);
    CapOut(t);
    var r := Report(cb, Buffer(Cap(t), e.pkt), e.tick);
    FlushOut(cb, r);
  }

  lemma KeptThroughTimestamp(cb: Callbacks, s0: Loop, s: Loop, p: Packet, ps: seq<Packet>)
    requires cb.onVideo && Kept(s0, s, ps) && !IsGap(s.rx, p)
    ensures Kept(s0, TimestampFlush(cb, Account(s, p), p), ps)
  {
    FlushOut(cb, Account(s, p));
  }

  lemma KeptThroughMarker(cb: Callbacks, s0: Loop, t: Loop, p: Packet, tick: bool, ps: seq<Packet>)
    requires cb.onVideo && Kept(s0, t, ps) && |t.buf| < BUFFER_CAP
    ensures Kept(s0, MarkerFlush(cb, Report(cb, Buffer(t, p), tick), p), ps + [p])
  {
    var r := Report(cb, Buffer(t, p), tick);
    assert ForwardedOf(t.log) + t.buf + [p] == ForwardedOf(s0.log) + (ps + [p]);
    assert Kept(s0, r, ps + [p]);
    FlushOut(cb, r);
  }

  lemma StretchSnoc(k: nat, ts: U32, ps: seq<Packet>, p: Packet)
    requires Stretch(k, ts, ps)
    ensures p.marker ==> Stretch(0, p.ts, ps + [p])
    ensures !p.marker && (p.ts != ts || k == 0) ==> Stretch(1, p.ts, ps + [p])
    ensures !p.marker && p.ts == ts ==> Stretch(k + 1, ts, ps + [p])
  {
  }

  lemma LosslessStep(cb: Callbacks, s0: Loop, s: Loop, e: Event, ps: seq<Packet>)
    requires cb.onVideo && Lossless(s0, s, ps) && !IsGap(s.rx, e.pkt)
    requires s.rx.videoCount == 0 ==> s.buf == []
    ensures if |s.buf| >= BUFFER_CAP && e.pkt.ts == s.lastFrameTS then Out(Step(cb, s, e)) <= Out(s)
            else Lossless(s0, Step(cb, s, e), ps + [e.pkt])
  {
    var p := e.pkt;
    var t := TimestampFlush(cb, Account(s, p), p);
    assert t.buf == if p.ts != s.lastFrameTS then [] else s.buf;
    if |t.buf| >= BUFFER_CAP {
      StepOut(cb, s, e);
    } else {
      KeptThroughTimestamp(cb, s0, s, p, ps);
      KeptThroughMarker(cb, s0, t, p, e.tick, ps);
      StretchSnoc(|s.buf|, s.lastFrameTS, ps, p);
      var r := Step(cb, s, e);
      assert r == MarkerFlush(cb, Report(cb, Buffer(t, p), e.tick), p);
      assert [] + [p] == [p];
      assert r.buf == if p.marker then [] else t.buf + [p];
    }
  }

  /** The machine overflows exactly when the packets have just completed a long stretch. */
  lemma StretchIsFullBuffer(k: nat, ts: U32, ps: seq<Packet>, p: Packet)
    requires Stretch(k, ts, ps) && !LongStretch(ps) && k <= BUFFER_CAP
    ensures (k >= BUFFER_CAP && p.ts == ts) <==> LongStretch(ps + [p])
  {
    var qs := ps + [p];
    if k >= BUFFER_CAP && p.ts == ts {
      var i := |ps| - k;
      forall j | i <= j < |ps| ensures qs[j].ts == ts && !qs[j].marker {
        assert qs[j] == ps[j];
      }
      assert StretchAt(qs, i);
    }
    if i: nat :| StretchAt(qs, i) {
      if i + BUFFER_CAP < |ps| {
        StretchAtPrefix(ps, p, i);
      } else {
        StretchFillsBuffer(k, ts, ps, p, i);
      }
    }
  }

  lemma StretchAtPrefix(ps: seq<Packet>, p: Packet, i: nat)
    requires i + BUFFER_CAP < |ps|
    ensures StretchAt(ps, i) <==> StretchAt(ps + [p], i)
  {
    assert forall j :: i <= j <= i + BUFFER_CAP ==> (ps + [p])[j] == ps[j];
  }

  lemma StretchFillsBuffer(k: nat, ts: U32, ps: seq<Packet>, p: Packet, i: nat)
    requires Stretch(k, ts, ps) && StretchAt(ps + [p], i) && i + BUFFER_CAP == |ps|
    ensures k >= BUFFER_CAP && p.ts == ts
  {
    var n, qs := |ps|, ps + [p];
    assert qs[n] == p && qs[i] == ps[i];
    forall j | i <= j < n ensures ps[j].ts == p.ts && !ps[j].marker {
      assert qs[j] == ps[j];
    }
    assert !ps[n - 1].marker;
  }

  lemma StretchGrows(ps: seq<Packet>, p: Packet)
    requires LongStretch(ps)
    ensures LongStretch(ps + [p])
  {
    var i: nat :| StretchAt(ps, i);
    StretchAtPrefix(ps, p, i);
  }

  lemma LastSeqFrom(cb: Callbacks, s0: Loop, evs: seq<Event>)
    requires evs != []
    ensures var s := RunFrom(cb, s0, evs); s.rx.lastSeq == evs[|evs| - 1].pkt.seqNo && s.rx.videoCount > 0
  {
    StepCounts(cb, RunFrom(cb, s0, evs[..|evs| - 1]), evs[|evs| - 1]);
  }

  lemma StepKeepsCap(cb: Callbacks, s: Loop, e: Event)
    requires |s.buf| <= BUFFER_CAP
    ensures |Step(cb, s, e).buf| <= BUFFER_CAP
  {
  }

  lemma {:induction false} LosslessInduction(cb: Callbacks, s0: Loop, evs: seq<Event>)
    requires cb.onVideo && Clean(s0) && GapFree(s0.rx, Packets(evs))
    ensures var s, ps := RunFrom(cb, s0, evs), Packets(evs);
            && |s.buf| <= BUFFER_CAP
            && if LongStretch(ps) then Out(s) < Out(s0) + |ps| else Lossless(s0, s, ps)
  {
    var n := |evs| - 1;
    if evs == [] {
      assert ForwardedOf(s0.log) + [] == ForwardedOf(s0.log);
    } else {
      var s, ps, e := RunFrom(cb, s0, evs[..n]), Packets(evs[..n]), evs[n];
      assert GapFree(s0.rx, ps) by {
        assert forall i :: 0 <= i < n ==> ps[i] == Packets(evs)[i];
      }
      LosslessInduction(cb, s0, evs[..n]);
      StepKeepsCap(cb, s, e);
      if LongStretch(ps) {
        StepOut(cb, s, e);
        StretchGrows(ps, e.pkt);
      } else {
        if n > 0 {
          LastSeqFrom(cb, s0, evs[..n]);
          assert Packets(evs)[n].seqNo == NextSeq(Packets(evs)[n - 1].seqNo);
        } else {
          assert Packets(evs)[0] == e.pkt;
        }
        LosslessStep(cb, s0, s, e, ps);
        StretchIsFullBuffer(|s.buf|, s.lastFrameTS, ps, e.pkt);
        assert Out(s) == |ForwardedOf(s.log) + s.buf| == |ForwardedOf(s0.log) + ps|;
      }
    }
  }

  /** From any clean state, gap-free packets are all forwarded or still buffered, in order, if and
      only if no 301 of them run on without a flush point; then no frame is dropped either. */
  lemma LosslessIff(cb: Callbacks, s0: Loop, evs: seq<Event>)
    requires cb.onVideo && Clean(s0) && GapFree(s0.rx, Packets(evs))
    ensures var s, ps := RunFrom(cb, s0, evs), Packets(evs);
            && (ForwardedOf(s.log) + s.buf == ForwardedOf(s0.log) + ps <==> !LongStretch(ps))
            && (!LongStretch(ps) ==> s.droppedFrames == s0.droppedFrames)
  {
    LosslessInduction(cb, s0, evs);
    var s, ps := RunFrom(cb, s0, evs), Packets(evs);
    assert |ForwardedOf(s.log) + s.buf| == Out(s) && |ForwardedOf(s0.log) + ps| == Out(s0) + |ps|;
  }

  /** Recovery: whatever was lost before, a marker leaves the loop clean, so the gap-free packets
      that follow are forwarded or buffered to the last one. */
  lemma RecoveryAtMarker(cb: Callbacks, before: seq<Event>, m: Event, after: seq<Event>)
    requires cb.onVideo && m.pkt.marker
    requires var s := Run(cb, before + [m]); GapFree(s.rx, Packets(after)) && !LongStretch(Packets(after))
    ensures var s := Run(cb, before + [m]);
            var r := RunFrom(cb, s, after);
            Clean(s) && ForwardedOf(r.log) + r.buf == ForwardedOf(s.log) + Packets(after)
  {
    RunFromSnoc(cb, Init, before, m);
    LosslessIff(cb, Run(cb, before + [m]), after);
  }
}
