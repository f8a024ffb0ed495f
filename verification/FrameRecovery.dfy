/** What becomes of the next frame after a loss, in terms of the payloads the camera builds. */
module FrameRecovery {
  import opened Rtp
  import opened FrameAssembler
  import opened Seqs
  import H264 = AnnexB

  /** One timestamp, consecutive numbers, at most 300 packets, the marker on the last one only. */
  predicate OneFrameOf(ps: seq<Packet>, ts: U32) {
    && 0 < |ps| <= 300
    && (forall i :: 0 <= i < |ps| ==> ps[i].ts == ts && (ps[i].marker <==> i == |ps| - 1))
    && (forall i :: 0 < i < |ps| ==> ps[i].seqNo == (ps[i - 1].seqNo + 1) % 65536)
  }

  /** The buffer holds an unfinished frame, and packets were lost inside it or between it and `next`. */
  predicate Broken(s: Loop, next: Packet) {
    s.buf != [] && s.rx.videoCount > 0 && (s.gapped || next.seqNo != (s.rx.lastSeq + 1) % 65536)
  }

  /** Does a frame with this first packet clear the gap flag? */
  predicate Opens(p: Packet) {
    p.payload == [] || IsFrameStart(p.payload)
  }

  function BrokenBatch(cb: Callbacks, buf: seq<Packet>): Batch {
    Batch(if cb.onIDR && IsIDRFrame(buf) then CachedOnly else Dropped, buf)
  }

  /** After m packets of the next frame, the broken one is out and those m are buffered. */
  ghost predicate Restarted(cb: Callbacks, s: Loop, r: Loop, ps: seq<Packet>, m: nat)
    requires 0 < m <= |ps|
  {
    && r.buf == ps[..m] && r.gapped == !Opens(ps[0])
    && r.log == s.log + [BrokenBatch(cb, s.buf)] && r.droppedFrames == s.droppedFrames + 1
    && r.lastFrameTS == ps[0].ts && r.rx.lastSeq == ps[m - 1].seqNo && r.rx.videoCount > 0
  }

  lemma RestartStep(cb: Callbacks, s: Loop, e: Event, ps: seq<Packet>)
    requires Broken(s, e.pkt) && ps != [] && ps[0] == e.pkt && e.pkt.ts != s.lastFrameTS
    ensures var r := Report(cb, Buffer(Cap(TimestampFlush(cb, Account(s, e.pkt), e.pkt)), e.pkt), e.tick);
            Restarted(cb, s, r, ps, 1) && Step(cb, s, e) == MarkerFlush(cb, r, e.pkt)
  {
    var a := Account(s, e.pkt);
    var t := TimestampFlush(cb, a, e.pkt);
    assert FateOf(cb, a) == BrokenBatch(cb, s.buf).fate;
    assert t.buf == [] && [] + [e.pkt] == ps[..1];
  }

  lemma RestartGoesOn(cb: Callbacks, s: Loop, q: Loop, e: Event, ps: seq<Packet>, m: nat)
    requires 0 < m < |ps| <= 300 && Restarted(cb, s, q, ps, m) && e.pkt == ps[m]
    requires ps[m].ts == ps[0].ts && ps[m].seqNo == NextSeq(ps[m - 1].seqNo)
    ensures var r := Report(cb, Buffer(Cap(TimestampFlush(cb, Account(q, e.pkt), e.pkt)), e.pkt), e.tick);
            Restarted(cb, s, r, ps, m + 1) && Step(cb, q, e) == MarkerFlush(cb, r, e.pkt)
  {
    assert ps[..m] + [ps[m]] == ps[..m + 1];
  }

  lemma {:induction false} RestartRun(cb: Callbacks, s: Loop, evs: seq<Event>, m: nat)
    requires 0 < m < |evs| && Broken(s, Packets(evs)[0]) && OneFrameOf(Packets(evs), Packets(evs)[0].ts)
    requires Packets(evs)[0].ts != s.lastFrameTS
    ensures Restarted(cb, s, RunFrom(cb, s, evs[..m]), Packets(evs), m)
  {
    var ps := Packets(evs);
    assert evs[..m][..m - 1] == evs[..m - 1];
    assert RunFrom(cb, s, evs[..m]) == Step(cb, RunFrom(cb, s, evs[..m - 1]), evs[m - 1]);
    if m == 1 {
      RestartStep(cb, s, evs[0], ps);
    } else {
      RestartRun(cb, s, evs, m - 1);
      RestartGoesOn(cb, s, RunFrom(cb, s, evs[..m - 1]), evs[m - 1], ps, m - 1);
    }
  }

  lemma StapAOpens(ps: seq<Packet>)
    requires ps != [] && IsIDRFrame(ps)
    ensures Opens(ps[0])
  {
  }

  lemma LastOfFrame(cb: Callbacks, s: Loop, r: Loop, ps: seq<Packet>)
    requires cb.onVideo && ps != [] && Restarted(cb, s, r, ps, |ps|) && ps[|ps| - 1].marker
    ensures var q := MarkerFlush(cb, r, ps[|ps| - 1]);
            && q.log == s.log + [BrokenBatch(cb, s.buf), Batch(if Opens(ps[0]) then Forwarded else Dropped, ps)]
            && q.droppedFrames == s.droppedFrames + (if Opens(ps[0]) then 1 else 2)
            && q.buf == [] && !q.gapped
  {
    assert ps[..|ps|] == ps;
    if IsIDRFrame(ps) {
      StapAOpens(ps);
    }
    var b := Batch(if Opens(ps[0]) then Forwarded else Dropped, ps);
    assert s.log + [BrokenBatch(cb, s.buf)] + [b] == s.log + [BrokenBatch(cb, s.buf), b];
  }

  /** Behind a frame that lost packets, be it just its last ones: the next frame to arrive, gap-free to its marker,
      is forwarded whole if and only if its first payload is empty or a frame start; otherwise it is
      dropped too. */
  lemma NextFrame(cb: Callbacks, s: Loop, evs: seq<Event>, ts: U32)
    requires cb.onVideo && OneFrameOf(Packets(evs), ts) && ts != s.lastFrameTS && Broken(s, Packets(evs)[0])
    ensures var r, ps := RunFrom(cb, s, evs), Packets(evs);
            && r.log == s.log + [BrokenBatch(cb, s.buf), Batch(if Opens(ps[0]) then Forwarded else Dropped, ps)]
            && r.droppedFrames == s.droppedFrames + (if Opens(ps[0]) then 1 else 2)
            && r.buf == [] && !r.gapped
  {
    var ps, n := Packets(evs), |evs| - 1;
    assert ps[0].ts == ts;
    var q := RunFrom(cb, s, evs[..n]);
    var e := evs[n];
    if n == 0 {
      RestartStep(cb, s, e, ps);
    } else {
      RestartRun(cb, s, evs, n);
      RestartGoesOn(cb, s, q, e, ps, n);
    }
    var r := Report(cb, Buffer(Cap(TimestampFlush(cb, Account(q, e.pkt), e.pkt)), e.pkt), e.tick);
    LastOfFrame(cb, s, r, ps);
  }

  // ---------- Frames as the camera builds them ----------

  predicate HasPayloads(ps: seq<Packet>, bs: seq<Bytes>) {
    |ps| == |bs| && forall i :: 0 <= i < |ps| ==> ps[i].payload == bs[i]
  }

  /** Payload k is the first one of some carrier. */
  ghost predicate BeginsCarrier(cs: seq<H264.Carrier>, k: nat)
    requires H264.AllWellFormed(cs)
  {
    exists i :: 0 <= i < |cs| && k == |H264.AllPayloads(cs[..i])|
  }

  lemma {:induction false} PayloadsGrow(cs: seq<H264.Carrier>, i: nat)
    requires H264.AllWellFormed(cs) && i <= |cs|
    ensures |H264.AllPayloads(cs[..i])| <= |H264.AllPayloads(cs)|
    decreases |cs|
  {
    if i == |cs| {
      assert cs[..i] == cs;
    } else {
      assert cs[..|cs| - 1][..i] == cs[..i];
      PayloadsGrow(cs[..|cs| - 1], i);
    }
  }

  /** The beginnings inside the carriers before the last, then the last one's. */
  lemma {:induction false} BeginsSnoc(cs: seq<H264.Carrier>, k: nat)
    requires cs != [] && H264.AllWellFormed(cs)
    ensures var init := cs[..|cs| - 1];
            var before := |H264.AllPayloads(init)|;
            && (k < before ==> (BeginsCarrier(cs, k) <==> BeginsCarrier(init, k)))
            && (k >= before && H264.Payloads(cs[|cs| - 1]) != [] ==> (BeginsCarrier(cs, k) <==> k == before))
  {
    var init := cs[..|cs| - 1];
    forall i | 0 <= i < |cs|
      ensures init[..i] == cs[..i] && |H264.AllPayloads(cs[..i])| <= |H264.AllPayloads(init)|
    {
      assert init[..i] == cs[..i];
      PayloadsGrow(init, i);
    }
    assert cs[..|init|] == init;
  }

  /** Exactly the first payload of every carrier is a frame start. */
  lemma {:induction false} StartsAreCarriers(cs: seq<H264.Carrier>, k: nat)
    requires H264.AllWellFormed(cs) && k < |H264.AllPayloads(cs)|
    ensures H264.AllPayloads(cs)[k] != []
    ensures IsFrameStart(H264.AllPayloads(cs)[k]) <==> BeginsCarrier(cs, k)
    decreases |cs|
  {
    var init, last := cs[..|cs| - 1], cs[|cs| - 1];
    var before := |H264.AllPayloads(init)|;
    BeginsSnoc(cs, k);
    if k < before {
      StartsAreCarriers(init, k);
    } else {
      H264.PayloadKinds(last, k - before);
    }
  }

  /** What was received of a frame that lost its marker is in the buffer. The next frame, of any NALUs sent alone,
      aggregated or in fragments, arrives without a gap from payload k to its marker: what arrives is forwarded
      if and only if k is the first payload of a carrier, and dropped otherwise. So a frame that arrives
      whole is forwarded whole. */
  lemma NextCameraFrameIff(cb: Callbacks, s: Loop, evs: seq<Event>, ts: U32, cs: seq<H264.Carrier>, k: nat)
    requires cb.onVideo && OneFrameOf(Packets(evs), ts) && ts != s.lastFrameTS && Broken(s, Packets(evs)[0])
    requires H264.AllWellFormed(cs) && k < |H264.AllPayloads(cs)|
    requires HasPayloads(Packets(evs), H264.AllPayloads(cs)[k..])
    ensures var r, ps := RunFrom(cb, s, evs), Packets(evs);
            && r.log == s.log + [BrokenBatch(cb, s.buf), Batch(if BeginsCarrier(cs, k) then Forwarded else Dropped, ps)]
            && r.droppedFrames == s.droppedFrames + (if BeginsCarrier(cs, k) then 1 else 2)
    ensures BeginsCarrier(cs, 0)
  {
    StartsAreCarriers(cs, k);
    assert Packets(evs)[0].payload == H264.AllPayloads(cs)[k..][0] == H264.AllPayloads(cs)[k];
    NextFrame(cb, s, evs, ts);
    assert 0 == |H264.AllPayloads(cs[..0])|;
  }
}
