/** The RTSP server's video state as an object, updated in place and tied to the value-level server. */
module RtspServerObject {
  import opened Rtp
  import opened RtspServer

  class VideoServer {
    var streamOpen: bool
    var videoSeq: Seq16
    var videoSeqInited: bool
    var videoTSBase: U32
    var videoTSOffset: U32
    var lastVideoTS: U32
    var idrCache: seq<Packet>
    var idrPending: seq<Packet>
    var collectingIDR: bool
    var idrReady: bool
    // The output log and its session bookkeeping.
    var out: seq<Emission>
    var session: nat
    var gap: int

    ghost function ClockOf(): Clock
      reads this
    {
      Clock(videoSeq, videoSeqInited, videoTSBase, videoTSOffset, lastVideoTS)
    }

    ghost function IdrOf(): Idr
      reads this
    {
      Idr(idrCache, idrPending, collectingIDR, idrReady)
    }

    ghost function Abs(): Server
      reads this
    {
      Server(streamOpen, ClockOf(), IdrOf(), out, session, gap)
    }

    constructor ()
      ensures Abs() == Init
    {
      streamOpen, videoSeq, videoSeqInited, videoTSBase, videoTSOffset, lastVideoTS := true, 0, false, 0, 0, 0;
      idrCache, idrPending, collectingIDR, idrReady := [], [], false, false;
      out, session, gap := [], 0, MIN_RESET_GAP;
    }

    method NormalizeVideoRTP(pkt: Packet) returns (q: Packet)
      modifies this`videoSeq, this`videoSeqInited, this`videoTSBase, this`lastVideoTS
      ensures (ClockOf(), q) == Normalize(old(ClockOf()), pkt)
    {
      var cameraTS := pkt.ts;
      if !videoSeqInited {
        videoTSBase := cameraTS;
        videoSeqInited := true;
      }
      q := pkt.(seqNo := videoSeq, pt := VIDEO_PT);
      videoSeq := NextSeq(videoSeq);
      q := q.(ts := (videoTSOffset + (cameraTS - videoTSBase)) % TS_MOD);
      lastVideoTS := q.ts;
    }

    method CacheIDRPacket(pkt: Packet)
      modifies this`idrCache, this`idrPending, this`collectingIDR, this`idrReady
      ensures IdrOf() == CachePacket(old(IdrOf()), pkt)
    {
      if |pkt.payload| < 1 {
        return;
      }
      var naluType := NalType(pkt.payload[0]);
      if naluType == STAP_A {
        idrPending := [pkt];
        collectingIDR := false;
        return;
      }
      if naluType == FU_A && |pkt.payload| > 1 {
        var startBit := pkt.payload[1] >= 128;
        var origType := NalType(pkt.payload[1]);
        if startBit && origType == 5 {
          collectingIDR := true;
          idrPending := idrPending + [pkt];
          return;
        }
        if collectingIDR {
          idrPending := idrPending + [pkt];
          if pkt.marker {
            idrCache := idrPending;
            idrPending := [];
            collectingIDR := false;
            if !idrReady {
              idrReady := true;
            }
          }
          return;
        }
      }
    }

    /** What WriteVideoPacket and OnPlay do first: look up the stream under the server's mutex. */
    method LookUpStream() returns (seen: bool)
      ensures seen == streamOpen
    {
      seen := streamOpen;
    }

    /** WritePacketRTP on the stream looked up before: one that was closed meanwhile takes nothing. */
    method WritePacketRTP(e: Emission)
      modifies this`out
      ensures Abs() == Emit(old(Abs()), [e])
    {
      if streamOpen {
        out := out + [e];
      }
    }

    /** The rest of WriteVideoPacket, under the write mutex. */
    method WriteVideoPacket(pkt: Packet, seen: bool)
      modifies this`videoSeq, this`videoSeqInited, this`videoTSBase, this`lastVideoTS, this`idrCache, this`idrPending,
               this`collectingIDR, this`idrReady, this`out
      ensures Abs() == Apply(old(Abs()), Write(pkt, seen))
    {
      if !seen {
        return;
      }
      var q := NormalizeVideoRTP(pkt);
      CacheIDRPacket(q);
      WritePacketRTP(Emission(q, Camera(pkt.ts, session, gap)));
    }

    /** Both in a row, as a caller whom no stop interrupts runs them. */
    method WriteUninterrupted(pkt: Packet)
      modifies this`videoSeq, this`videoSeqInited, this`videoTSBase, this`lastVideoTS, this`idrCache, this`idrPending,
               this`collectingIDR, this`idrReady, this`out
      ensures Abs() == Apply(old(Abs()), Write(pkt, old(streamOpen)))
    {
      var seen := LookUpStream();
      WriteVideoPacket(pkt, seen);
    }

    method CacheOnlyVideoPacket(pkt: Packet)
      modifies this`idrCache, this`idrPending, this`collectingIDR, this`idrReady
      ensures Abs() == Apply(old(Abs()), CacheOnly(pkt))
    {
      CacheIDRPacket(pkt);
    }

    /** ResetVideoRTP under the write mutex; `elapsed` is the wall-clock gap in 90 kHz ticks. */
    method ResetVideoClock(elapsed: U32)
      modifies this`videoTSOffset, this`videoSeqInited, this`session, this`gap
      ensures Abs() == Apply(old(Abs()), ResetClock(elapsed))
    {
      if videoSeqInited {
        gap := elapsed;
        if gap < MIN_RESET_GAP {
          gap := MIN_RESET_GAP;
        }
        videoTSOffset := (lastVideoTS + gap) % TS_MOD;
        session := session + 1;
      }
      videoSeqInited := false;
    }

    /** ResetVideoRTP under the cache mutex. */
    method ClearIDRCache()
      modifies this`idrCache, this`idrPending, this`collectingIDR, this`idrReady
      ensures Abs() == Apply(old(Abs()), ClearCache)
    {
      idrCache, idrPending, collectingIDR, idrReady := [], [], false, false;
    }

    /** The loop of OnPlay that replays the cache with fresh numbers and one timestamp. */
    method ReplayCache(cache: seq<Packet>, idrTS: U32)
      modifies this`videoSeq, this`out
      ensures videoSeq == (old(videoSeq) + |cache|) % SEQ_MOD
      ensures out == old(out) + if streamOpen then Injection(cache, old(videoSeq), idrTS) else []
    {
      ghost var first, inj := videoSeq, Injection(cache, videoSeq, idrTS);
      for i := 0 to |cache|
        invariant videoSeq == (first + i) % SEQ_MOD
        invariant out == old(out) + if streamOpen then inj[..i] else []
      {
        assert inj[..i] + [inj[i]] == inj[..i + 1];
        WritePacketRTP(Emission(cache[i].(seqNo := videoSeq, ts := idrTS, pt := VIDEO_PT), Cache));
        videoSeq := NextSeq(videoSeq);
      }
      assert inj[..|cache|] == inj;
    }

    /** OnPlay's injection under the write mutex. */
    method InjectIDR(seen: bool)
      modifies this`videoSeq, this`out
      ensures Abs() == Apply(old(Abs()), Inject(seen))
    {
      if !seen {
        return;
      }
      if |idrCache| > 0 {
        ReplayCache(idrCache, (lastVideoTS + 1) % TS_MOD);
      } else {
        assert out + Injection(idrCache, videoSeq, (lastVideoTS + 1) % TS_MOD) == out;
      }
    }

    method InjectUninterrupted()
      modifies this`videoSeq, this`out
      ensures Abs() == Apply(old(Abs()), Inject(old(streamOpen)))
    {
      var seen := LookUpStream();
      InjectIDR(seen);
    }
  }
}
