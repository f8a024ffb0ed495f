/** The video half of the RTSP server: renumbering across camera sessions, the IDR cache, and its
    injection for late joiners. Each event is one region under the write or the cache mutex. A call
    looks up the stream first and acts on it later; `seen` tells what it found. */
module RtspServer {
  import opened Rtp
  import opened Seqs

  const VIDEO_PT: Byte := 96
  const MIN_RESET_GAP := 4500

  datatype Clock = Clock(videoSeq: Seq16, inited: bool, tsBase: U32, tsOffset: U32, lastTS: U32)

  /** `ready` says that the idrReady channel is closed. */
  datatype Idr = Idr(cache: seq<Packet>, pending: seq<Packet>, collecting: bool, ready: bool)

  /** Where an emitted packet came from. `session` counts effective resets; `gap` is the one that
      opened the session. */
  datatype Origin = Camera(ts: U32, session: nat, gap: int) | Cache

  datatype Emission = Emission(pkt: Packet, origin: Origin)

  datatype Server = Server(open: bool, clock: Clock, idr: Idr, out: seq<Emission>, session: nat, gap: int)

  const EmptyIdr := Idr([], [], false, false)
  const Init := Server(true, Clock(0, false, 0, 0, 0), EmptyIdr, [], 0, MIN_RESET_GAP)

  datatype Event =
    | Write(pkt: Packet, seen: bool) // WriteVideoPacket
    | CacheOnly(pkt: Packet)         // CacheOnlyVideoPacket
    | ResetClock(elapsed: U32)       // ResetVideoRTP, first half
    | ClearCache                     // ResetVideoRTP, second half
    | Inject(seen: bool)             // OnPlay's injection
    | Stop

  // ---------- The source's operations ----------

  function Rebase(c: Clock, ts: U32): Clock {
    if c.inited then c else c.(tsBase := ts, inited := true)
  }

  function OutputTS(offset: U32, base: U32, ts: U32): U32 {
    (offset + (ts - base)) % TS_MOD
  }

  function Normalize(c: Clock, p: Packet): (Clock, Packet) {
    var b := Rebase(c, p.ts);
    var ts := OutputTS(b.tsOffset, b.tsBase, p.ts);
    (b.(videoSeq := NextSeq(c.videoSeq), lastTS := ts), p.(seqNo := c.videoSeq, ts := ts, pt := VIDEO_PT))
  }

  function CachePacket(i: Idr, p: Packet): Idr {
    if IsStapA(p.payload) then
      i.(pending := [p], collecting := false)
    else if IsIdrStart(p.payload) then
      i.(pending := i.pending + [p], collecting := true)
    else if IsFuA(p.payload) && i.collecting then
      if p.marker then Idr(i.pending + [p], [], false, true)
      else i.(pending := i.pending + [p])
    else i
  }

  function ResetGap(elapsed: U32): int {
    if elapsed < MIN_RESET_GAP then MIN_RESET_GAP else elapsed
  }

  function InjectedAt(p: Packet, first: Seq16, i: nat, ts: U32): Packet {
    p.(seqNo := (first + i) % SEQ_MOD, ts := ts, pt := VIDEO_PT)
  }

  function Injection(cache: seq<Packet>, first: Seq16, ts: U32): (r: seq<Emission>)
    ensures |r| == |cache|
    ensures forall i :: 0 <= i < |cache| ==> r[i] == Emission(InjectedAt(cache[i], first, i, ts), Cache)
  {
    if cache == [] then []
    else
      var n := |cache| - 1;
      Injection(cache[..n], first, ts) + [Emission(InjectedAt(cache[n], first, n, ts), Cache)]
  }

  /** A closed stream takes no more packets. */
  function Emit(s: Server, es: seq<Emission>): Server {
    if s.open then s.(out := s.out + es) else s
  }

  function WriteSeen(s: Server, p: Packet): Server {
    var (c, q) := Normalize(s.clock, p);
    Emit(s, [Emission(q, Camera(p.ts, s.session, s.gap))]).(clock := c, idr := CachePacket(s.idr, q))
  }

  function InjectSeen(s: Server): Server {
    Emit(s, Injection(s.idr.cache, s.clock.videoSeq, (s.clock.lastTS + 1) % TS_MOD)).
      (clock := s.clock.(videoSeq := (s.clock.videoSeq + |s.idr.cache|) % SEQ_MOD))
  }

  function Apply(s: Server, e: Event): Server {
    match e
    case Write(p, seen) => if seen then WriteSeen(s, p) else s
    case CacheOnly(p) => s.(idr := CachePacket(s.idr, p))
    case ResetClock(elapsed) =>
      if s.clock.inited then
        var gap := ResetGap(elapsed);
        s.(clock := s.clock.(tsOffset := (s.clock.lastTS + gap) % TS_MOD, inited := false),
           session := s.session + 1, gap := gap)
      else s
    case ClearCache => s.(idr := EmptyIdr)
    case Inject(seen) => if seen then InjectSeen(s) else s
    case Stop => s.(open := false)
  }

  /** Does the event write a packet? */
  predicate Writes(e: Event) {
    e.Write? && e.seen
  }

  lemma ClosedIsSilent(s: Server, e: Event)
    requires !s.open
    ensures var s' := Apply(s, e); !s'.open && s'.out == s.out
  {
  }

  function RunFrom(s: Server, evs: seq<Event>): Server {
    if evs == [] then s else Apply(RunFrom(s, evs[..|evs| - 1]), evs[|evs| - 1])
  }

  // ---------- Sequence numbers ----------

  ghost predicate Numbered(s: Server) {
    && (s.open ==> s.clock.videoSeq == |s.out| % 65536)
    && (forall i :: 0 <= i < |s.out| ==> s.out[i].pkt.seqNo == i % 65536 && s.out[i].pkt.pt == 96)
  }

  lemma AddModSeq(x: nat, k: nat)
    ensures (x % SEQ_MOD + k) % SEQ_MOD == (x + k) % SEQ_MOD
  {
  }

  lemma InjectNumbered(s: Server)
    requires Numbered(s) && s.open
    ensures Numbered(InjectSeen(s))
  {
    var s', n := InjectSeen(s), |s.out|;
    AddModSeq(n, |s.idr.cache|);
    forall i | 0 <= i < |s'.out| ensures s'.out[i].pkt.seqNo == i % SEQ_MOD && s'.out[i].pkt.pt == VIDEO_PT {
      if i >= n {
        AddModSeq(n, i - n);
      }
    }
  }

  /** Over any run of camera packets, injections, resets, cache clears and stops, the k-th emitted packet
      carries number k mod 2^16, so numbers go up by exactly one, and the payload type of the SDP. */
  lemma {:induction false} SequenceContinuity(evs: seq<Event>)
    ensures Numbered(RunFrom(Init, evs))
  {
    if evs == [] {
    } else {
      var s, e := RunFrom(Init, evs[..|evs| - 1]), evs[|evs| - 1];
      SequenceContinuity(evs[..|evs| - 1]);
      if !s.open {
        ClosedIsSilent(s, e);
      } else if e == Inject(true) {
        InjectNumbered(s);
      } else {
        AddModSeq(|s.out|, 1);
      }
    }
  }

  // ---------- Timestamps ----------

  /** The camera packets among the emissions. */
  function CameraOf(out: seq<Emission>): seq<Emission> {
    if out == [] then []
    else
      var n := |out| - 1;
      CameraOf(out[..n]) + if out[n].origin.Camera? then [out[n]] else []
  }

  lemma CameraSnoc(out: seq<Emission>, e: Emission)
    ensures CameraOf(out + [e]) == CameraOf(out) + if e.origin.Camera? then [e] else []
  {
    assert (out + [e])[..|out|] == out;
  }

  lemma {:induction false} CameraIgnoresInjection(out: seq<Emission>, inj: seq<Emission>)
    requires forall e :: e in inj ==> e.origin.Cache?
    ensures CameraOf(out + inj) == CameraOf(out)
  {
    if inj == [] {
      assert out + inj == out;
    } else {
      var n := |inj| - 1;
      assert out + inj == (out + inj[..n]) + [inj[n]];
      CameraSnoc(out + inj[..n], inj[n]);
      CameraIgnoresInjection(out, inj[..n]);
    }
  }

  predicate SameDelta(a: Emission, b: Emission)
    requires a.origin.Camera? && b.origin.Camera?
  {
    (b.pkt.ts - a.pkt.ts) % 0x1_0000_0000 == (b.origin.ts - a.origin.ts) % 0x1_0000_0000
  }

  /** b opens the session after a's: it is ahead of a by exactly the recorded gap. */
  predicate Opens(a: Emission, b: Emission)
    requires a.origin.Camera? && b.origin.Camera?
  {
    && b.origin.session == a.origin.session + 1
    && b.origin.gap >= 4500
    && b.pkt.ts == (a.pkt.ts + b.origin.gap) % 0x1_0000_0000
  }

  ghost predicate Timed(cam: seq<Emission>)
    requires forall e :: e in cam ==> e.origin.Camera?
  {
    && (forall i, j :: 0 <= i < j < |cam| && cam[i].origin.session == cam[j].origin.session ==> SameDelta(cam[i], cam[j]))
    && (forall j :: 0 < j < |cam| && cam[j - 1].origin.session != cam[j].origin.session ==> Opens(cam[j - 1], cam[j]))
  }

  /** The clock against the camera packets emitted so far. */
  ghost predicate ClockInv(s: Server, cam: seq<Emission>)
    requires forall e :: e in cam ==> e.origin.Camera?
  {
    && s.gap >= MIN_RESET_GAP
    && (cam == [] ==> s.session == 0 && !s.clock.inited)
    && (cam != [] ==> s.clock.lastTS == cam[|cam| - 1].pkt.ts)
    && (cam != [] ==> s.session == cam[|cam| - 1].origin.session + if s.clock.inited then 0 else 1)
    && (cam != [] && !s.clock.inited ==> s.clock.tsOffset == (s.clock.lastTS + s.gap) % TS_MOD)
    && (s.clock.inited ==> forall i :: 0 <= i < |cam| && cam[i].origin.session == s.session ==>
          cam[i].pkt.ts == OutputTS(s.clock.tsOffset, s.clock.tsBase, cam[i].origin.ts))
    && (forall i :: 0 <= i < |cam| ==> cam[i].origin.session <= s.session - if s.clock.inited then 0 else 1)
  }

  lemma DeltaOfOffsets(offset: int, base: int, a: int, b: int)
    ensures ((offset + (b - base)) % TS_MOD - (offset + (a - base)) % TS_MOD) % TS_MOD == (b - a) % TS_MOD
  {
  }

  lemma TimedSnoc(cam: seq<Emission>, e: Emission)
    requires (forall c :: c in cam ==> c.origin.Camera?) && e.origin.Camera? && Timed(cam)
    requires forall i :: 0 <= i < |cam| && cam[i].origin.session == e.origin.session ==> SameDelta(cam[i], e)
    requires cam != [] && cam[|cam| - 1].origin.session != e.origin.session ==> Opens(cam[|cam| - 1], e)
    ensures Timed(cam + [e])
  {
    var qs := cam + [e];
    forall i, j | 0 <= i < j < |qs| && qs[i].origin.session == qs[j].origin.session ensures SameDelta(qs[i], qs[j]) {
      assert qs[i] == cam[i] && (j < |cam| ==> qs[j] == cam[j]);
    }
    forall j | 0 < j < |qs| && qs[j - 1].origin.session != qs[j].origin.session ensures Opens(qs[j - 1], qs[j]) {
      assert qs[j - 1] == cam[j - 1] && (j < |cam| ==> qs[j] == cam[j]);
    }
  }

  function Written(s: Server, p: Packet): Emission {
    Emission(Normalize(s.clock, p).1, Camera(p.ts, s.session, s.gap))
  }

  lemma WriteDeltas(s: Server, cam: seq<Emission>, p: Packet)
    requires (forall e :: e in cam ==> e.origin.Camera?) && ClockInv(s, cam)
    ensures forall i :: 0 <= i < |cam| && cam[i].origin.session == s.session ==> SameDelta(cam[i], Written(s, p))
    ensures cam != [] && cam[|cam| - 1].origin.session != s.session ==> Opens(cam[|cam| - 1], Written(s, p))
  {
    forall i | 0 <= i < |cam| && cam[i].origin.session == s.session ensures SameDelta(cam[i], Written(s, p)) {
      DeltaOfOffsets(s.clock.tsOffset, s.clock.tsBase, cam[i].origin.ts, p.ts);
    }
  }

  lemma WriteClock(s: Server, cam: seq<Emission>, p: Packet)
    requires (forall e :: e in cam ==> e.origin.Camera?) && s.open && ClockInv(s, cam)
    ensures ClockInv(WriteSeen(s, p), cam + [Written(s, p)])
  {
    var c := Normalize(s.clock, p).0;
    forall i | 0 <= i < |cam| && cam[i].origin.session == s.session
      ensures cam[i].pkt.ts == OutputTS(c.tsOffset, c.tsBase, cam[i].origin.ts)
    {
    }
  }

  ghost predicate TimeInv(s: Server) {
    && (forall e :: e in CameraOf(s.out) ==> e.origin.Camera?)
    && Timed(CameraOf(s.out))
    && (s.open ==> ClockInv(s, CameraOf(s.out)))
  }

  lemma WriteTimeInv(s: Server, p: Packet)
    requires TimeInv(s) && s.open
    ensures TimeInv(WriteSeen(s, p))
  {
    var cam := CameraOf(s.out);
    CameraSnoc(s.out, Written(s, p));
    WriteDeltas(s, cam, p);
    TimedSnoc(cam, Written(s, p));
    WriteClock(s, cam, p);
  }

  /** TimeInv looks at the camera packets, the timestamp fields of the clock and the session only. */
  lemma TimeInvDepends(s: Server, s': Server)
    requires TimeInv(s) && CameraOf(s'.out) == CameraOf(s.out) && (s'.open ==> s.open)
    requires s'.clock == s.clock.(videoSeq := s'.clock.videoSeq) && s'.session == s.session && s'.gap == s.gap
    ensures TimeInv(s')
  {
    assert s'.open ==> ClockInv(s', CameraOf(s.out));
  }

  lemma InjectKeepsCamera(s: Server)
    ensures CameraOf(InjectSeen(s).out) == CameraOf(s.out)
  {
    var inj := Injection(s.idr.cache, s.clock.videoSeq, (s.clock.lastTS + 1) % TS_MOD);
    forall e | e in inj ensures e.origin.Cache? {
      var i :| 0 <= i < |inj| && inj[i] == e;
    }
    CameraIgnoresInjection(s.out, inj);
  }

  lemma InjectTimeInv(s: Server)
    requires TimeInv(s)
    ensures TimeInv(InjectSeen(s))
  {
    InjectKeepsCamera(s);
    TimeInvDepends(s, InjectSeen(s));
  }

  lemma ResetTimeInv(s: Server, elapsed: U32)
    requires TimeInv(s)
    ensures TimeInv(Apply(s, ResetClock(elapsed)))
  {
  }

  lemma TimeInvStep(s: Server, ev: Event)
    requires TimeInv(s)
    ensures TimeInv(Apply(s, ev))
  {
    if !s.open {
      ClosedIsSilent(s, ev);
    } else if Writes(ev) {
      WriteTimeInv(s, ev.pkt);
    } else if ev == Inject(true) {
      InjectTimeInv(s);
    } else if ev.ResetClock? {
      ResetTimeInv(s, ev.elapsed);
    } else {
      TimeInvDepends(s, Apply(s, ev));
    }
  }

  lemma {:induction false} TimestampsInv(evs: seq<Event>)
    ensures TimeInv(RunFrom(Init, evs))
  {
    if evs == [] {
    } else {
      TimestampsInv(evs[..|evs| - 1]);
      TimeInvStep(RunFrom(Init, evs[..|evs| - 1]), evs[|evs| - 1]);
    }
  }

  /** Over any run: within a camera session output timestamp differences equal the camera's modulo
      2^32, and the first packet after a reset is ahead of the previous camera packet by the recorded
      gap, which is at least 4500 ticks. */
  lemma TimestampContinuity(evs: seq<Event>)
    ensures var cam := CameraOf(RunFrom(Init, evs).out);
            (forall e :: e in cam ==> e.origin.Camera?) && Timed(cam)
  {
    TimestampsInv(evs);
  }

  /** The first camera packet of all goes out at timestamp 0. */
  predicate StartsAtZero(s: Server, cam: seq<Emission>) {
    if cam == [] then s.open ==> s.clock.tsOffset == 0 && !s.clock.inited && s.session == 0
    else cam[0].pkt.ts == 0 && cam[0].origin.Camera? && cam[0].origin.session == 0
  }

  lemma StartsAtZeroStep(s: Server, e: Event)
    requires StartsAtZero(s, CameraOf(s.out))
    ensures StartsAtZero(Apply(s, e), CameraOf(Apply(s, e).out))
  {
    if Writes(e) && s.open {
      CameraSnoc(s.out, Written(s, e.pkt));
    } else if e == Inject(true) {
      InjectKeepsCamera(s);
    }
  }

  lemma {:induction false} OutputStartsAtZero(evs: seq<Event>)
    ensures StartsAtZero(RunFrom(Init, evs), CameraOf(RunFrom(Init, evs).out))
  {
    if evs == [] {
    } else {
      OutputStartsAtZero(evs[..|evs| - 1]);
      StartsAtZeroStep(RunFrom(Init, evs[..|evs| - 1]), evs[|evs| - 1]);
    }
  }

  /** The gaps of the resets that had a camera packet before them, and whether one came since the last:
      the elapsed ticks, but 4500 at least. */
  datatype Resets = Resets(gaps: seq<int>, seen: bool)

  function NextResets(h: Resets, e: Event): Resets {
    match e
    case Write(_, true) => h.(seen := true)
    case ResetClock(elapsed) => if h.seen then Resets(h.gaps + [if elapsed < 4500 then 4500 else elapsed], false) else h
    case _ => h
  }

  function ResetsOf(evs: seq<Event>): Resets {
    if evs == [] then Resets([], false) else NextResets(ResetsOf(evs[..|evs| - 1]), evs[|evs| - 1])
  }

  predicate Recorded(o: Origin, gaps: seq<int>) {
    o.Camera? ==> o.session <= |gaps| && (o.session > 0 ==> o.gap == gaps[o.session - 1])
  }

  predicate AllRecorded(out: seq<Emission>, gaps: seq<int>) {
    forall i :: 0 <= i < |out| ==> Recorded(out[i].origin, gaps)
  }

  predicate FollowsResets(s: Server, h: Resets) {
    && s.session == |h.gaps| && s.clock.inited == h.seen
    && (h.gaps != [] ==> s.gap == h.gaps[|h.gaps| - 1])
    && AllRecorded(s.out, h.gaps)
  }

  lemma RecordedGrows(out: seq<Emission>, gaps: seq<int>, gap: int)
    requires AllRecorded(out, gaps)
    ensures AllRecorded(out, gaps + [gap])
  {
    forall i | 0 <= i < |out| ensures Recorded(out[i].origin, gaps + [gap]) {
      assert Recorded(out[i].origin, gaps);
    }
  }

  lemma RecordedConcat(out: seq<Emission>, more: seq<Emission>, gaps: seq<int>)
    requires AllRecorded(out, gaps) && AllRecorded(more, gaps)
    ensures AllRecorded(out + more, gaps)
  {
  }

  lemma FollowsResetsStep(s: Server, h: Resets, e: Event)
    requires FollowsResets(s, h)
    ensures FollowsResets(Apply(s, e), NextResets(h, e))
  {
    match e {
      case ResetClock(elapsed) => RecordedGrows(s.out, h.gaps, if elapsed < 4500 then 4500 else elapsed);
      case Write(p, seen) => RecordedConcat(s.out, [Written(s, p)], h.gaps);
      case Inject(seen) =>
        RecordedConcat(s.out, Injection(s.idr.cache, s.clock.videoSeq, (s.clock.lastTS + 1) % TS_MOD), h.gaps);
      case _ =>
    }
  }

  /** Camera session k begins with the k-th such reset, and its recorded gap is that reset's. */
  lemma {:induction false} SessionsFollowResets(evs: seq<Event>)
    ensures FollowsResets(RunFrom(Init, evs), ResetsOf(evs))
  {
    if evs == [] {
    } else {
      SessionsFollowResets(evs[..|evs| - 1]);
      FollowsResetsStep(RunFrom(Init, evs[..|evs| - 1]), ResetsOf(evs[..|evs| - 1]), evs[|evs| - 1]);
    }
  }

  /** The packets written while the stream is open. */
  function WrittenPackets(evs: seq<Event>): seq<Packet> {
    if evs == [] then []
    else
      var n := |evs| - 1;
      WrittenPackets(evs[..n]) + if Writes(evs[n]) && !Stopped(evs[..n]) then [evs[n].pkt] else []
  }

  predicate Stopped(evs: seq<Event>) {
    exists i :: 0 <= i < |evs| && evs[i].Stop?
  }

  lemma StoppedSnoc(evs: seq<Event>, e: Event)
    ensures Stopped(evs + [e]) <==> Stopped(evs) || e.Stop?
  {
    var qs := evs + [e];
    assert qs[|evs|] == e;
    if i :| 0 <= i < |evs| && evs[i].Stop? {
      assert qs[i].Stop?;
    }
  }

  /** Camera emissions carry the payloads, markers and camera timestamps of `ps`, in order. */
  predicate Carries(cam: seq<Emission>, ps: seq<Packet>) {
    && |cam| == |ps|
    && (forall i :: 0 <= i < |ps| ==>
          && cam[i].origin.Camera? && cam[i].origin.ts == ps[i].ts
          && cam[i].pkt.payload == ps[i].payload && cam[i].pkt.marker == ps[i].marker)
  }

  lemma CarriesStep(s: Server, ps: seq<Packet>, e: Event)
    requires Carries(CameraOf(s.out), ps)
    ensures Carries(CameraOf(Apply(s, e).out), ps + if Writes(e) && s.open then [e.pkt] else [])
  {
    if Writes(e) && s.open {
      CameraSnoc(s.out, Written(s, e.pkt));
    } else {
      assert ps + [] == ps;
      if e == Inject(true) {
        InjectKeepsCamera(s);
      }
    }
  }

  /** Over any run, leaving the injected packets aside, the output is the camera's packets written
      while the stream was open: every payload and marker, in order, none added or lost. */
  lemma {:induction false} LiveStreamIsCameraStream(evs: seq<Event>)
    ensures RunFrom(Init, evs).open <==> !Stopped(evs)
    ensures Carries(CameraOf(RunFrom(Init, evs).out), WrittenPackets(evs))
  {
    if evs == [] {
    } else {
      var n := |evs| - 1;
      LiveStreamIsCameraStream(evs[..n]);
      assert evs[..n] + [evs[n]] == evs;
      StoppedSnoc(evs[..n], evs[n]);
      CarriesStep(RunFrom(Init, evs[..n]), WrittenPackets(evs[..n]), evs[n]);
    }
  }

  /** Resets that follow a reset without a camera packet in between change nothing of the clock. */
  lemma {:induction false} RepeatedResets(s: Server, elapsed: U32, more: seq<Event>)
    requires forall e :: e in more ==> e.ResetClock? || e.CacheOnly? || e.ClearCache?
    ensures var once := Apply(s, ResetClock(elapsed));
            var many := RunFrom(once, more);
            many.clock == once.clock && many.session == once.session && many.out == once.out
  {
    if more == [] {
    } else {
      RepeatedResets(s, elapsed, more[..|more| - 1]);
      assert more[|more| - 1] in more;
    }
  }

  // ---------- IDR cache: every input ----------

  /** An optional STAP-A, then FU-A packets only, the first of them an IDR start. */
  predicate IdrParts(ps: seq<Packet>) {
    && ps != []
    && var k := if IsStapA(ps[0].payload) then 1 else 0;
    && k < |ps|
    && IsIdrStart(ps[k].payload)
    && (forall j :: k <= j < |ps| ==> IsFuA(ps[j].payload))
  }

  predicate IdrInv(i: Idr) {
    && (i.cache != [] ==> IdrParts(i.cache) && i.cache[|i.cache| - 1].marker)
    && (i.ready <==> i.cache != [])
    && (if i.collecting then IdrParts(i.pending)
        else i.pending == [] || (|i.pending| == 1 && IsStapA(i.pending[0].payload)))
  }

  lemma IdrPartsSnoc(ps: seq<Packet>, p: Packet)
    requires IdrParts(ps) && IsFuA(p.payload)
    ensures IdrParts(ps + [p])
  {
  }

  lemma CachePacketInv(i: Idr, p: Packet)
    requires IdrInv(i)
    ensures IdrInv(CachePacket(i, p))
  {
    if IsFuA(p.payload) && i.collecting {
      IdrPartsSnoc(i.pending, p);
    }
  }

  /** For every run at all: a non-empty cache is an optional STAP-A followed only by FU-A packets,
      the first an IDR start and the last marked; idrReady is closed exactly when it is non-empty. */
  lemma {:induction false} CacheShape(evs: seq<Event>)
    ensures IdrInv(RunFrom(Init, evs).idr)
  {
    if evs == [] {
    } else {
      var s, e := RunFrom(Init, evs[..|evs| - 1]), evs[|evs| - 1];
      CacheShape(evs[..|evs| - 1]);
      match e {
        case Write(p, _) => CachePacketInv(s.idr, Normalize(s.clock, p).1);
        case CacheOnly(p) => CachePacketInv(s.idr, p);
        case _ =>
      }
    }
  }

  // ---------- IDR cache: access units ----------

  function Feed(i: Idr, ps: seq<Packet>): Idr {
    if ps == [] then i else CachePacket(Feed(i, ps[..|ps| - 1]), ps[|ps| - 1])
  }

  /** STAP-A, FU-A IDR start, further FU-A packets; among those only the last, which is not an IDR
      start, carries the marker (an IDR start's marker is never looked at). */
  predicate IsIdrUnit(u: seq<Packet>) {
    var n := |u| - 1;
    && n >= 2
    && IsStapA(u[0].payload)
    && IsIdrStart(u[1].payload)
    && (forall j :: 2 <= j <= n ==> IsFuA(u[j].payload))
    && (forall j :: 2 <= j < n && !IsIdrStart(u[j].payload) ==> !u[j].marker)
    && !IsIdrStart(u[n].payload) && u[n].marker
  }

  predicate NoIdrStart(u: seq<Packet>) {
    forall j :: 0 <= j < |u| ==> !IsIdrStart(u[j].payload)
  }

  lemma {:induction false} UnitCollects(i: Idr, u: seq<Packet>, n: nat)
    requires IsIdrUnit(u) && 2 <= n < |u|
    ensures Feed(i, u[..n]) == Idr(i.cache, u[..n], true, i.ready)
  {
    assert u[..n][..n - 1] == u[..n - 1];
    SliceSnoc(u, 0, n - 1);
    if n == 2 {
      assert u[..1][..0] == [] && u[..1][0] == u[0];
      assert Feed(i, u[..1]) == CachePacket(i, u[0]);
    } else {
      UnitCollects(i, u, n - 1);
    }
  }

  /** From any cache state whatever, an IDR unit leaves exactly its packets in the cache. */
  lemma IdrUnitIsCached(i: Idr, u: seq<Packet>)
    requires IsIdrUnit(u)
    ensures Feed(i, u) == Idr(u, [], false, true)
  {
    var n := |u| - 1;
    UnitCollects(i, u, n);
    assert u[..n] + [u[n]] == u;
  }

  lemma {:induction false} OtherUnitKeepsCache(i: Idr, u: seq<Packet>)
    requires NoIdrStart(u) && !i.collecting
    ensures var r := Feed(i, u); r.cache == i.cache && r.ready == i.ready && !r.collecting
  {
    if u == [] {
    } else {
      OtherUnitKeepsCache(i, u[..|u| - 1]);
    }
  }

  function FeedUnits(i: Idr, units: seq<seq<Packet>>): Idr {
    if units == [] then i else Feed(FeedUnits(i, units[..|units| - 1]), units[|units| - 1])
  }

  function LastIdrUnit(units: seq<seq<Packet>>, cache: seq<Packet>): seq<Packet> {
    if units == [] then cache
    else if IsIdrUnit(units[|units| - 1]) then units[|units| - 1]
    else LastIdrUnit(units[..|units| - 1], cache)
  }

  /** Over any sequence of IDR units and units without an IDR start, the cache is always exactly the
      last IDR unit. */
  lemma {:induction false} CacheIsLastIdrUnit(i: Idr, units: seq<seq<Packet>>)
    requires !i.collecting
    requires forall k :: 0 <= k < |units| ==> IsIdrUnit(units[k]) || NoIdrStart(units[k])
    ensures FeedUnits(i, units).cache == LastIdrUnit(units, i.cache) && !FeedUnits(i, units).collecting
  {
    if units == [] {
    } else {
      var n := |units| - 1;
      CacheIsLastIdrUnit(i, units[..n]);
      if IsIdrUnit(units[n]) {
        IdrUnitIsCached(FeedUnits(i, units[..n]), units[n]);
      } else {
        OtherUnitKeepsCache(FeedUnits(i, units[..n]), units[n]);
      }
    }
  }

  // ---------- What a reset clears ----------

  /** What was handed to the cache since the last ClearCache, as rewritten and as the camera sent it. */
  ghost function SinceClear(evs: seq<Event>): seq<Packet> {
    if evs == [] || evs[|evs| - 1].ClearCache? then []
    else SinceClear(evs[..|evs| - 1]) + Cached(RunFrom(Init, evs[..|evs| - 1]), evs[|evs| - 1])
  }

  function CameraSinceClear(evs: seq<Event>): seq<Packet> {
    if evs == [] || evs[|evs| - 1].ClearCache? then []
    else
      var e := evs[|evs| - 1];
      CameraSinceClear(evs[..|evs| - 1]) + if Writes(e) || e.CacheOnly? then [e.pkt] else []
  }

  /** In every run the cache is what an empty one makes of the packets handed to it since the last
      ClearCache, and nothing else: a reset leaves no trace of the session before. */
  lemma {:induction false} CacheStartsAfresh(evs: seq<Event>)
    ensures RunFrom(Init, evs).idr == Feed(Idr([], [], false, false), SinceClear(evs))
    ensures SameContent(SinceClear(evs), CameraSinceClear(evs))
  {
    if evs == [] {
    } else {
      var n := |evs| - 1;
      CacheStartsAfresh(evs[..n]);
      if !evs[n].ClearCache? {
        FreshStep(RunFrom(Init, evs[..n]), evs[n], Idr([], [], false, false), SinceClear(evs[..n]), CameraSinceClear(evs[..n]));
      }
    }
  }

  lemma CacheTakes(s: Server, e: Event)
    requires !e.ClearCache?
    ensures var more := Cached(s, e);
            && |more| <= 1
            && Apply(s, e).idr == (if more == [] then s.idr else CachePacket(s.idr, more[0]))
            && (more != [] <==> Writes(e) || e.CacheOnly?)
            && (more != [] ==> more[0].payload == e.pkt.payload && more[0].marker == e.pkt.marker)
  {
  }

  lemma FreshStep(s: Server, e: Event, i: Idr, ps: seq<Packet>, cs: seq<Packet>)
    requires !e.ClearCache? && s.idr == Feed(i, ps) && SameContent(ps, cs)
    ensures Apply(s, e).idr == Feed(i, ps + Cached(s, e))
    ensures SameContent(ps + Cached(s, e), cs + if Writes(e) || e.CacheOnly? then [e.pkt] else [])
  {
    var more := Cached(s, e);
    CacheTakes(s, e);
    if more == [] {
      assert ps + [] == ps && cs + [] == cs;
    } else {
      FeedSnoc(i, ps, more[0]);
      assert ps + more == ps + [more[0]];
    }
  }

  lemma FeedSnoc(i: Idr, ps: seq<Packet>, p: Packet)
    ensures Feed(i, ps + [p]) == CachePacket(Feed(i, ps), p)
  {
    assert (ps + [p])[..|ps|] == ps;
  }

  /** An IDR start at i that no STAP-A follows. */
  predicate OpenStart(ps: seq<Packet>, i: nat) {
    && i < |ps| && IsIdrStart(ps[i].payload)
    && forall k :: i < k < |ps| ==> !IsStapA(ps[k].payload)
  }

  /** An IDR start at i and a marked FU-A at j that is none, with no STAP-A in between. */
  predicate Completes(ps: seq<Packet>, i: nat, j: nat) {
    && i < j < |ps| && IsIdrStart(ps[i].payload)
    && IsFuA(ps[j].payload) && !IsIdrStart(ps[j].payload) && ps[j].marker
    && forall k :: i < k < j ==> !IsStapA(ps[k].payload)
  }

  ghost predicate SomeOpenStart(ps: seq<Packet>) {
    exists i: nat :: OpenStart(ps, i)
  }

  ghost predicate SomeCompletes(ps: seq<Packet>) {
    exists i: nat, j: nat :: Completes(ps, i, j)
  }

  lemma OpenStartSnoc(ps: seq<Packet>, p: Packet)
    ensures SomeOpenStart(ps + [p]) <==> IsIdrStart(p.payload) || (SomeOpenStart(ps) && !IsStapA(p.payload))
  {
    var qs, n := ps + [p], |ps|;
    if IsIdrStart(p.payload) {
      assert OpenStart(qs, n);
    } else if SomeOpenStart(ps) && !IsStapA(p.payload) {
      var i: nat :| OpenStart(ps, i);
      assert OpenStart(qs, i);
    }
    if i: nat :| OpenStart(qs, i) && i < n {
      assert qs[n] == p;
      assert forall k :: i < k < n ==> !IsStapA(qs[k].payload) && qs[k] == ps[k];
      assert OpenStart(ps, i);
    }
  }

  lemma CompletesSnoc(ps: seq<Packet>, p: Packet)
    ensures SomeCompletes(ps + [p]) <==>
              SomeCompletes(ps) || (SomeOpenStart(ps) && IsFuA(p.payload) && !IsIdrStart(p.payload) && p.marker)
  {
    var qs, n := ps + [p], |ps|;
    if i: nat, j: nat :| Completes(ps, i, j) {
      assert Completes(qs, i, j);
    }
    if i: nat :| OpenStart(ps, i) && IsFuA(p.payload) && !IsIdrStart(p.payload) && p.marker {
      assert Completes(qs, i, n);
    }
    if i: nat, j: nat :| Completes(qs, i, j) {
      assert forall k :: 0 <= k < n ==> qs[k] == ps[k];
      assert j < n ==> Completes(ps, i, j);
      assert j == n ==> OpenStart(ps, i);
    }
  }

  lemma {:induction false} FeedReady(ps: seq<Packet>)
    ensures var i := Feed(Idr([], [], false, false), ps);
            && (i.ready <==> SomeCompletes(ps))
            && (i.collecting ==> SomeOpenStart(ps))
            && (SomeOpenStart(ps) ==> i.collecting || i.ready)
  {
    if ps == [] {
    } else {
      var n := |ps| - 1;
      FeedReady(ps[..n]);
      assert ps[..n] + [ps[n]] == ps;
      OpenStartSnoc(ps[..n], ps[n]);
      CompletesSnoc(ps[..n], ps[n]);
    }
  }

  /** Every packet kept is one of `ps`. */
  predicate KeptFrom(i: Idr, ps: seq<Packet>) {
    && (forall k :: 0 <= k < |i.cache| ==> i.cache[k] in ps)
    && (forall k :: 0 <= k < |i.pending| ==> i.pending[k] in ps)
  }

  lemma KeptFromStep(i: Idr, ps: seq<Packet>, p: Packet)
    requires KeptFrom(i, ps)
    ensures KeptFrom(CachePacket(i, p), ps + [p])
  {
    assert p == (ps + [p])[|ps|];
  }

  lemma {:induction false} FeedKeepsFrom(ps: seq<Packet>)
    ensures KeptFrom(Feed(Idr([], [], false, false), ps), ps)
  {
    if ps == [] {
    } else {
      var n := |ps| - 1;
      FeedKeepsFrom(ps[..n]);
      KeptFromStep(Feed(Idr([], [], false, false), ps[..n]), ps[..n], ps[n]);
      assert ps[..n] + [ps[n]] == ps;
    }
  }

  /** The emissions carry payloads and markers of packets in `ps`. */
  ghost predicate SentFrom(es: seq<Emission>, ps: seq<Packet>) {
    forall k :: 0 <= k < |es| ==>
      exists p :: p in ps && es[k].pkt.payload == p.payload && es[k].pkt.marker == p.marker
  }

  lemma InjectionSendsFrom(s: Server, ps: seq<Packet>)
    requires KeptFrom(s.idr, ps)
    ensures var after := Apply(s, Inject(true)).out; s.out <= after && SentFrom(after[|s.out|..], ps)
    ensures s.idr.cache == [] ==> Apply(s, Inject(true)).out == s.out
  {
    var inj := Injection(s.idr.cache, s.clock.videoSeq, (s.clock.lastTS + 1) % TS_MOD);
    forall k | 0 <= k < |inj|
      ensures exists p :: p in ps && inj[k].pkt.payload == p.payload && inj[k].pkt.marker == p.marker
    {
      assert s.idr.cache[k] in ps;
    }
    if s.open {
      assert (s.out + inj)[|s.out|..] == inj;
    } else {
      assert s.out[|s.out|..] == [];
    }
  }

  /** In every run: idrReady is closed if and only if an IDR start and a marked FU-A behind it, with no STAP-A
      in between, were handed to the cache since the last ClearCache; each packet kept, and each one that
      an injection sends, was handed to it since then; and an injection while idrReady is open sends
      nothing. */
  lemma ReadySinceClearIff(evs: seq<Event>)
    ensures var s, ps := RunFrom(Init, evs), SinceClear(evs);
            && (s.idr.ready <==> SomeCompletes(ps))
            && KeptFrom(s.idr, ps)
            && var after := Apply(s, Inject(true)).out;
            && (!s.idr.ready ==> after == s.out)
            && s.out <= after && SentFrom(after[|s.out|..], ps)
  {
    var ps := SinceClear(evs);
    CacheStartsAfresh(evs);
    FeedReady(ps);
    FeedKeepsFrom(ps);
    CacheShape(evs);
    InjectionSendsFrom(RunFrom(Init, evs), ps);
  }

  // ---------- From camera packets to a late joiner ----------

  /** What the camera sent in `evs`, and what reached the cache (with rewritten headers). */
  function CameraPackets(evs: seq<Event>): seq<Packet> {
    if evs == [] then []
    else
      var n := |evs| - 1;
      CameraPackets(evs[..n]) + if Writes(evs[n]) || evs[n].CacheOnly? then [evs[n].pkt] else []
  }

  ghost function CachedPackets(s: Server, evs: seq<Event>): seq<Packet> {
    if evs == [] then []
    else
      var n := |evs| - 1;
      CachedPackets(s, evs[..n]) + Cached(RunFrom(s, evs[..n]), evs[n])
  }

  /** What one event hands to the cache. */
  function Cached(s: Server, e: Event): seq<Packet> {
    if Writes(e) then [Normalize(s.clock, e.pkt).1] else if e.CacheOnly? then [e.pkt] else []
  }

  /** Same payloads and markers, in the same order. */
  predicate SameContent(a: seq<Packet>, b: seq<Packet>) {
    && |a| == |b|
    && (forall i :: 0 <= i < |a| ==> a[i].payload == b[i].payload && a[i].marker == b[i].marker)
  }

  predicate Undisturbed(evs: seq<Event>) {
    forall e :: e in evs ==> !e.ClearCache? && !e.Stop?
  }

  lemma CacheStep(s: Server, e: Event, i: Idr, ps: seq<Packet>, cs: seq<Packet>)
    requires s.open && !e.ClearCache? && !e.Stop? && s.idr == Feed(i, ps) && SameContent(ps, cs)
    ensures var s' := Apply(s, e);
            && s'.open && s'.idr == Feed(i, ps + Cached(s, e))
            && SameContent(ps + Cached(s, e), cs + if Writes(e) || e.CacheOnly? then [e.pkt] else [])
  {
    if Writes(e) || e.CacheOnly? {
      assert (ps + Cached(s, e))[..|ps|] == ps;
    } else {
      assert ps + [] == ps && cs + [] == cs;
    }
  }

  lemma {:induction false} CacheSeesCamera(s: Server, evs: seq<Event>)
    requires s.open && Undisturbed(evs)
    ensures RunFrom(s, evs).open
    ensures RunFrom(s, evs).idr == Feed(s.idr, CachedPackets(s, evs))
    ensures SameContent(CachedPackets(s, evs), CameraPackets(evs))
  {
    if evs == [] {
    } else {
      var n := |evs| - 1;
      assert evs[n] in evs;
      CacheSeesCamera(s, evs[..n]);
      CacheStep(RunFrom(s, evs[..n]), evs[n], s.idr, CachedPackets(s, evs[..n]), CameraPackets(evs[..n]));
    }
  }

  /** The emissions carry the payloads and markers of `ps` in order, all at timestamp `ts`. */
  predicate Replays(sent: seq<Emission>, ps: seq<Packet>, ts: U32) {
    && |sent| == |ps|
    && (forall i :: 0 <= i < |ps| ==>
          && sent[i].pkt.payload == ps[i].payload
          && sent[i].pkt.marker == ps[i].marker
          && sent[i].pkt.ts == ts)
  }

  lemma IdrIsCached(s: Server, evs: seq<Event>)
    requires s.open && Undisturbed(evs) && IsIdrUnit(CameraPackets(evs))
    ensures var r := RunFrom(s, evs); r.open && r.idr.ready && SameContent(r.idr.cache, CameraPackets(evs))
  {
    CacheSeesCamera(s, evs);
    var ps := CachedPackets(s, evs);
    SameContentUnit(CameraPackets(evs), ps);
    IdrUnitIsCached(s.idr, ps);
  }

  lemma SameContentUnit(a: seq<Packet>, b: seq<Packet>)
    requires SameContent(b, a) && IsIdrUnit(a)
    ensures IsIdrUnit(b)
  {
  }

  /** A client that joins now is sent exactly the payloads and markers of `ps`, in order, at one
      timestamp. */
  ghost predicate JoinerGets(r: Server, ps: seq<Packet>) {
    r.idr.ready && Replays(Apply(r, Inject(true)).out[|r.out|..], ps, (r.clock.lastTS + 1) % TS_MOD)
  }

  lemma InjectionReplays(r: Server, ps: seq<Packet>)
    requires r.open && r.idr.ready && SameContent(r.idr.cache, ps)
    ensures JoinerGets(r, ps)
  {
    var inj := Injection(r.idr.cache, r.clock.videoSeq, (r.clock.lastTS + 1) % TS_MOD);
    assert Apply(r, Inject(true)).out[|r.out|..] == inj;
  }

  /** Whatever the server did before: once the camera packets of `evs` (with injections and clock
      resets in between) form an IDR unit, a client that joins is sent exactly that unit. */
  lemma LateJoinerGetsIdr(s: Server, evs: seq<Event>)
    requires s.open && Undisturbed(evs) && IsIdrUnit(CameraPackets(evs))
    ensures JoinerGets(RunFrom(s, evs), CameraPackets(evs))
  {
    IdrIsCached(s, evs);
    InjectionReplays(RunFrom(s, evs), CameraPackets(evs));
  }
}
