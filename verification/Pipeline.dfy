/** The video components in a row: frame assembler, RTSP server, late joiner and snapshot. */
module Pipeline {
  import opened Rtp
  import opened Seqs
  import Asm = FrameAssembler
  import Runs = FrameRuns
  import Srv = RtspServer
  import H264 = AnnexB

  /** The forwarded packets reach the server one WriteVideoPacket at a time, while its stream is there. */
  function Writes(ps: seq<Packet>): (evs: seq<Srv.Event>)
    ensures |evs| == |ps|
    ensures forall i :: 0 <= i < |ps| ==> evs[i] == Srv.Write(ps[i], true)
  {
    if ps == [] then [] else Writes(ps[..|ps| - 1]) + [Srv.Write(ps[|ps| - 1], true)]
  }

  lemma {:induction false} WritesAreCameraPackets(ps: seq<Packet>)
    ensures Srv.CameraPackets(Writes(ps)) == ps
  {
    if ps == [] {
    } else {
      var n := |ps| - 1;
      WritesAreCameraPackets(ps[..n]);
      assert Writes(ps)[..n] == Writes(ps[..n]);
      assert ps[..n] + [ps[n]] == ps;
    }
  }

  lemma MarkerEmptiesBuffer(cb: Asm.Callbacks, s: Asm.Loop, evs: seq<Asm.Event>)
    requires evs != [] && evs[|evs| - 1].pkt.marker
    ensures Asm.RunFrom(cb, s, evs).buf == []
  {
  }

  /** What the assembler forwards while it runs from s0 to s. */
  function Forwarded(s0: Asm.Loop, s: Asm.Loop): seq<Packet>
    requires |Asm.ForwardedOf(s0.log)| <= |Asm.ForwardedOf(s.log)|
  {
    Asm.ForwardedOf(s.log)[|Asm.ForwardedOf(s0.log)|..]
  }

  lemma UnitIsForwarded(cb: Asm.Callbacks, s0: Asm.Loop, evs: seq<Asm.Event>)
    requires cb.onVideo && Runs.Clean(s0) && Runs.GapFree(s0.rx, Asm.Packets(evs))
    requires !Runs.LongStretch(Asm.Packets(evs)) && Srv.IsIdrUnit(Asm.Packets(evs))
    ensures var s := Asm.RunFrom(cb, s0, evs);
            |Asm.ForwardedOf(s0.log)| <= |Asm.ForwardedOf(s.log)| && Forwarded(s0, s) == Asm.Packets(evs)
  {
    Runs.LosslessIff(cb, s0, evs);
    MarkerEmptiesBuffer(cb, s0, evs);
    var s := Asm.RunFrom(cb, s0, evs);
    assert Asm.ForwardedOf(s.log) + [] == Asm.ForwardedOf(s.log);
    assert (Asm.ForwardedOf(s0.log) + Asm.Packets(evs))[|Asm.ForwardedOf(s0.log)|..] == Asm.Packets(evs);
  }

  lemma WrittenUnitIsReplayed(server: Srv.Server, unit: seq<Packet>)
    requires server.open && Srv.IsIdrUnit(unit)
    ensures Srv.JoinerGets(Srv.RunFrom(server, Writes(unit)), unit)
  {
    WritesAreCameraPackets(unit);
    Srv.LateJoinerGetsIdr(server, Writes(unit));
  }

  /** An IDR unit that arrives without a gap, whatever was received and served before, is forwarded
      whole, cached, and replayed to a late joiner packet for packet. */
  lemma IdrReachesLateJoiner(cb: Asm.Callbacks, s0: Asm.Loop, evs: seq<Asm.Event>, server: Srv.Server)
    requires cb.onVideo && Runs.Clean(s0) && Runs.GapFree(s0.rx, Asm.Packets(evs))
    requires !Runs.LongStretch(Asm.Packets(evs)) && Srv.IsIdrUnit(Asm.Packets(evs))
    requires server.open
    ensures var s := Asm.RunFrom(cb, s0, evs);
            && |Asm.ForwardedOf(s0.log)| <= |Asm.ForwardedOf(s.log)|
            && Srv.JoinerGets(Srv.RunFrom(server, Writes(Forwarded(s0, s))), Asm.Packets(evs))
  {
    UnitIsForwarded(cb, s0, evs);
    WrittenUnitIsReplayed(server, Asm.Packets(evs));
  }

  // ---------- Snapshots ----------

  function PayloadsOf(ps: seq<Packet>): (r: seq<Bytes>)
    ensures |r| == |ps|
    ensures forall i :: 0 <= i < |ps| ==> r[i] == ps[i].payload
  {
    seq(|ps|, i requires 0 <= i < |ps| => ps[i].payload)
  }

  /** The camera's IDR access unit: parameter sets (and more) aggregated, then the slice in fragments. */
  function UnitCarriers(header: Byte, nals: seq<Bytes>, idr: Bytes, pieces: seq<Bytes>): seq<H264.Carrier> {
    [H264.StapA(header, nals), H264.FuA(idr, pieces)]
  }

  predicate Sendable(header: Byte, nals: seq<Bytes>, idr: Bytes, pieces: seq<Bytes>) {
    && H264.WellFormed(H264.StapA(header, nals))
    && H264.WellFormed(H264.FuA(idr, pieces))
    && |pieces| >= 2
    && idr[0] % 32 == 5
  }

  ghost predicate IsCameraUnit(ps: seq<Packet>, header: Byte, nals: seq<Bytes>, idr: Bytes, pieces: seq<Bytes>) {
    && Sendable(header, nals, idr, pieces)
    && PayloadsOf(ps) == H264.AllPayloads(UnitCarriers(header, nals, idr, pieces))
    && (forall i :: 0 <= i < |ps| ==> (ps[i].marker <==> i == |ps| - 1))
  }

  lemma UnitPayloads(header: Byte, nals: seq<Bytes>, idr: Bytes, pieces: seq<Bytes>)
    requires Sendable(header, nals, idr, pieces)
    ensures H264.AllPayloads(UnitCarriers(header, nals, idr, pieces)) ==
            [[header] + H264.Aggregate(nals)] + H264.Fragments(idr[0], pieces, |pieces|)
    ensures H264.AllCarried(UnitCarriers(header, nals, idr, pieces)) == nals + [idr]
  {
    var cs := UnitCarriers(header, nals, idr, pieces);
    assert cs[..1] == [cs[0]] && cs[..1][..0] == [];
    assert H264.AllPayloads(cs[..1]) == H264.Payloads(cs[0]);
    assert H264.AllCarried(cs[..1]) == nals;
  }

  lemma FragmentShape(header: Byte, first: bool, last: bool, piece: Bytes)
    requires header % 32 == 5
    ensures var p := H264.Fragment(header, first, last, piece); IsFuA(p) && (IsIdrStart(p) <==> first)
  {
  }

  /** The camera's access unit is one the IDR cache accepts. */
  lemma CameraUnitIsIdrUnit(ps: seq<Packet>, header: Byte, nals: seq<Bytes>, idr: Bytes, pieces: seq<Bytes>)
    requires IsCameraUnit(ps, header, nals, idr, pieces)
    ensures Srv.IsIdrUnit(ps)
  {
    UnitPayloads(header, nals, idr, pieces);
    var n := |pieces|;
    assert |ps| == |PayloadsOf(ps)| == n + 1;
    assert ps[0].payload == PayloadsOf(ps)[0] == [header] + H264.Aggregate(nals);
    forall j | 1 <= j <= n ensures IsFuA(ps[j].payload) && (IsIdrStart(ps[j].payload) <==> j == 1) {
      assert ps[j].payload == PayloadsOf(ps)[j] == H264.Fragment(idr[0], j == 1, j == n, pieces[j - 1]);
      FragmentShape(idr[0], j == 1, j == n, pieces[j - 1]);
    }
  }

  /** Whatever the server did before: after the camera's IDR unit, the snapshot made from the cache is
      the parameter sets followed by every NALU the camera put into the unit, in order. */
  lemma SnapshotShowsCameraUnit(server: Srv.Server, evs: seq<Srv.Event>, sps: Bytes, pps: Bytes,
                                header: Byte, nals: seq<Bytes>, idr: Bytes, pieces: seq<Bytes>)
    requires server.open && Srv.Undisturbed(evs) && H264.NoneEmpty(nals)
    requires IsCameraUnit(Srv.CameraPackets(evs), header, nals, idr, pieces)
    ensures var cache := Srv.RunFrom(server, evs).idr.cache;
            var first := H264.ParamSets(sps, pps);
            H264.TakeAll(H264.Depack(first, []), PayloadsOf(cache)).nals == first + (nals + [idr])
  {
    var unit := Srv.CameraPackets(evs);
    CameraUnitIsIdrUnit(unit, header, nals, idr, pieces);
    Srv.IdrIsCached(server, evs);
    assert PayloadsOf(Srv.RunFrom(server, evs).idr.cache) == PayloadsOf(unit);
    UnitPayloads(header, nals, idr, pieces);
    H264.NoneEmptyConcat(nals, [idr]);
    H264.DepacketiserInvertsPacketiser(UnitCarriers(header, nals, idr, pieces), sps, pps);
  }
}
