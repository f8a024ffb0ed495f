/** The video read loop in place: pooled packets, a frame buffer that aliases them, and a pool they
    go back to. Every method is tied to the value-level assembler. */
module VideoLoop {
  import opened Rtp
  import opened FrameAssembler

  const ZeroPacket := Packet(0, 0, false, 0, [])

  class PooledPacket {
    var pkt: Packet

    constructor ()
      ensures pkt == ZeroPacket
    {
      pkt := ZeroPacket;
    }
  }

  /** Outcome of decrypting and parsing a datagram; the SRTP context is foreign. */
  datatype Decrypted = DecryptError | UnmarshalError | Decrypted(pkt: Packet)

  /** Why a datagram is or is not a video packet (source check, length, RTCP range, decryption). */
  predicate Accepted(fromCamera: bool, raw: Bytes, d: Decrypted) {
    fromCamera && |raw| >= 2 && !(200 <= raw[1] <= 207) && d.Decrypted?
  }

  /** The packet types of RTCP (section 4 of RFC 5761), one by one. */
  const RtcpTypes: seq<Byte> := [200, 201, 202, 203, 204, 205, 206, 207]

  /** Of the datagrams from the camera exactly those of at least two bytes whose second byte is no RTCP type
      are taken for video, if they decrypt and parse. */
  lemma AcceptedIff(fromCamera: bool, raw: Bytes, d: Decrypted)
    ensures Accepted(fromCamera, raw, d) <==>
              fromCamera && |raw| >= 2 && raw[1] !in [200, 201, 202, 203, 204, 205, 206, 207] && d.Decrypted?
  {
  }

  class ReadLoop {
    const cb: Callbacks
    var rx: Rx
    var lastFrameTS: U32
    var frameGapped: bool
    var frameBuf: seq<PooledPacket>
    var droppedFrames: nat
    var stat: VideoStats
    var log: seq<Batch>
    var reports: seq<VideoStats>
    var rtcpCount: nat
    var foreignDrops: nat
    var decryptErrors: nat
    var pool: set<PooledPacket>

    /** Ownership: buffered packets are distinct and none of them has been released. */
    ghost predicate Valid()
      reads this
    {
      && (forall i, j :: 0 <= i < j < |frameBuf| ==> frameBuf[i] != frameBuf[j])
      && (forall i :: 0 <= i < |frameBuf| ==> frameBuf[i] !in pool)
    }

    ghost function Contents(): (ps: seq<Packet>)
      reads this, frameBuf
      ensures |ps| == |frameBuf|
      ensures forall i :: 0 <= i < |frameBuf| ==> ps[i] == frameBuf[i].pkt
    {
      seq(|frameBuf|, i requires 0 <= i < |frameBuf| reads this, frameBuf => frameBuf[i].pkt)
    }

    /** Every packet the loop has taken from the allocator: released or buffered. */
    ghost function Owned(): set<PooledPacket>
      reads this
    {
      pool + set pp | pp in frameBuf
    }

    ghost function Abs(): Loop
      reads this, frameBuf
    {
      Loop(rx, lastFrameTS, frameGapped, Contents(), droppedFrames, stat, log, reports)
    }

    constructor (cb: Callbacks)
      ensures Valid() && Abs() == Init && this.cb == cb && pool == {}
    {
      this.cb := cb;
      rx, lastFrameTS, frameGapped, frameBuf := InitRx, 0, false, [];
      droppedFrames, stat, log, reports := 0, VideoStats(0, 0, 0), [], [];
      rtcpCount, foreignDrops, decryptErrors, pool := 0, 0, 0, {};
    }

    /** packetPool.Get: a released packet or a new one, never one that is buffered. */
    method Get() returns (pp: PooledPacket)
      requires Valid()
      modifies this`pool
      ensures Valid() && pp !in pool && pp !in frameBuf
      ensures pp in old(pool) || fresh(pp)
      ensures pool == old(pool) - {pp}
    {
      if pool == {} {
        pp := new PooledPacket();
      } else {
        pp :| pp in pool;
        pool := pool - {pp};
      }
    }

    /** Releasing twice would violate the precondition. */
    method Release(pp: PooledPacket)
      requires pp !in pool
      modifies this`pool, pp
      ensures pool == old(pool) + {pp} && pp.pkt == ZeroPacket
    {
      pp.pkt := ZeroPacket;
      pool := pool + {pp};
    }

    /** Hands the buffered packets, in order, to a callback; each is still owned by the buffer. */
    method Deliver() returns (batch: seq<Packet>)
      requires Valid()
      ensures batch == Contents()
    {
      batch := [];
      for i := 0 to |frameBuf|
        invariant batch == Contents()[..i]
      {
        assert frameBuf[i] !in pool;
        batch := batch + [frameBuf[i].pkt];
      }
    }

    method ReleaseAll()
      requires Valid()
      modifies this`pool, this`frameBuf, frameBuf
      ensures Valid() && frameBuf == []
      ensures Owned() == old(Owned())
    {
      for i := 0 to |frameBuf|
        invariant frameBuf == old(frameBuf)
        invariant pool == old(pool) + set j | 0 <= j < i :: frameBuf[j]
      {
        Release(frameBuf[i]);
      }
      assert (set j | 0 <= j < |frameBuf| :: frameBuf[j]) == set pp | pp in frameBuf;
      frameBuf := [];
    }

    method FlushFrame()
      requires Valid()
      modifies this`pool, this`frameBuf, this`log, this`droppedFrames, frameBuf
      ensures Valid() && frameBuf == []
      ensures Abs() == Flush(cb, old(Abs()))
      ensures Owned() == old(Owned())
    {
      var batch := Deliver();
      if !frameGapped && cb.onVideo {
        log := log + [Batch(Forwarded, batch)];
      } else if frameGapped {
        if cb.onIDR && IsIDRFrame(batch) {
          log := log + [Batch(CachedOnly, batch)];
        } else {
          log := log + [Batch(Dropped, batch)];
        }
        droppedFrames := droppedFrames + 1;
      } else {
        log := log + [Batch(Unclaimed, batch)];
      }
      ReleaseAll();
    }

    method CountPacket(pkt: Packet)
      modifies this`rx, this`lastFrameTS, this`frameGapped
      ensures Abs() == Account(old(Abs()), pkt)
    {
      if rx.videoCount == 0 {
        lastFrameTS := pkt.ts;
        rx := Rx(1, pkt.seqNo, rx.dropCount, rx.gapEvents);
      } else if pkt.seqNo != NextSeq(rx.lastSeq) {
        var gap := pkt.seqNo - NextSeq(rx.lastSeq);
        if gap < 0 { gap := gap + SEQ_MOD; }
        rx := Rx(rx.videoCount + 1, pkt.seqNo, rx.dropCount + gap, rx.gapEvents + 1);
        frameGapped := true;
      } else {
        rx := Rx(rx.videoCount + 1, pkt.seqNo, rx.dropCount, rx.gapEvents);
      }
    }

    method EndFrameOnTimestamp(pkt: Packet)
      requires Valid()
      modifies this`pool, this`frameBuf, this`log, this`droppedFrames, this`frameGapped, this`lastFrameTS, frameBuf
      ensures Valid() && Abs() == TimestampFlush(cb, old(Abs()), pkt)
      ensures frameBuf == [] || (frameBuf == old(frameBuf) && pool == old(pool))
      ensures Owned() == old(Owned())
    {
      if pkt.ts != lastFrameTS && |frameBuf| > 0 {
        FlushFrame();
        if frameGapped {
          frameGapped := |pkt.payload| > 0 && !IsFrameStart(pkt.payload);
        }
      }
      lastFrameTS := pkt.ts;
    }

    method CapAndBuffer(pp: PooledPacket)
      requires Valid() && pp !in pool && pp !in frameBuf
      modifies this`pool, this`frameBuf, this`log, this`frameGapped, frameBuf
      ensures Valid() && Abs() == Buffer(Cap(old(Abs())), old(pp.pkt))
      ensures frameBuf == [pp] || frameBuf == old(frameBuf) + [pp]
      ensures Owned() == old(Owned()) + {pp}
    {
      if |frameBuf| >= BUFFER_CAP {
        var batch := Deliver();
        log := log + [Batch(Overflowed, batch)];
        ReleaseAll();
        frameGapped := true;
      }
      frameBuf := frameBuf + [pp];
    }

    method ReportStats(tick: bool)
      modifies this`reports, this`stat
      ensures Abs() == Report(cb, old(Abs()), tick)
    {
      if tick {
        if cb.onStats {
          reports := reports + [VideoStats(rx.videoCount - stat.packets, rx.dropCount - stat.drops,
                                           droppedFrames - stat.droppedFrames)];
        }
        stat := VideoStats(rx.videoCount, rx.dropCount, droppedFrames);
      }
    }

    method EndFrameOnMarker(pkt: Packet)
      requires Valid()
      modifies this`pool, this`frameBuf, this`log, this`droppedFrames, this`frameGapped, frameBuf
      ensures Valid() && Abs() == MarkerFlush(cb, old(Abs()), pkt)
      ensures Owned() == old(Owned())
    {
      if pkt.marker {
        FlushFrame();
        frameGapped := false;
      }
    }

    method Store(pp: PooledPacket)
      requires Valid() && pp !in Owned()
      modifies this`pool, this`frameBuf, this`log, this`droppedFrames, this`frameGapped, this`lastFrameTS, frameBuf
      ensures Valid() && Owned() == old(Owned()) + {pp}
      ensures frameBuf == [pp] || frameBuf == old(frameBuf) + [pp]
      ensures Abs() == Buffer(Cap(TimestampFlush(cb, old(Abs()), old(pp.pkt))), old(pp.pkt))
    {
      EndFrameOnTimestamp(pp.pkt);
      CapAndBuffer(pp);
    }

    method Finish(pkt: Packet, tick: bool)
      requires Valid()
      modifies this`pool, this`frameBuf, this`log, this`droppedFrames, this`frameGapped, this`reports, this`stat, frameBuf
      ensures Valid() && Owned() == old(Owned())
      ensures Abs() == MarkerFlush(cb, Report(cb, old(Abs()), tick), pkt)
    {
      ReportStats(tick);
      EndFrameOnMarker(pkt);
    }

    /** One accepted packet: exactly the assembler's step, and the packet is owned from here on. */
    method ReceiveVideo(pp: PooledPacket, tick: bool)
      requires Valid() && pp !in Owned()
      modifies this`rx, this`pool, this`frameBuf, this`log, this`droppedFrames, this`frameGapped, this`lastFrameTS, this`reports, this`stat, frameBuf, pp
      ensures Valid() && Owned() == old(Owned()) + {pp}
      ensures Abs() == Step(cb, old(Abs()), Event(old(pp.pkt), tick))
    {
      var pkt := pp.pkt;
      CountPacket(pkt);
      Store(pp);
      Finish(pkt, tick);
    }

    /** One datagram: an accepted packet takes one assembler step; every other datagram leaves the
        assembler alone. No pooled packet is lost: each is buffered or back in the pool. */
    method OnDatagram(fromCamera: bool, raw: Bytes, d: Decrypted, tick: bool)
      requires Valid()
      modifies this`rx, this`pool, this`frameBuf, this`log, this`droppedFrames, this`frameGapped, this`lastFrameTS,
               this`reports, this`stat, this`foreignDrops, this`rtcpCount, this`decryptErrors, frameBuf, pool
      ensures Valid() && Owned() >= old(Owned())
      ensures Abs() == if Accepted(fromCamera, raw, d) then Step(cb, old(Abs()), Event(d.pkt, tick)) else old(Abs())
      ensures foreignDrops == old(foreignDrops) + if fromCamera then 0 else 1
      ensures rtcpCount == old(rtcpCount) + if fromCamera && |raw| >= 2 && raw[1] in RtcpTypes then 1 else 0
      ensures decryptErrors == old(decryptErrors) +
                if fromCamera && |raw| >= 2 && raw[1] !in RtcpTypes && d.DecryptError? then 1 else 0
    {
      if !fromCamera {
        foreignDrops := foreignDrops + 1;
      } else if |raw| < 2 {
      } else if 200 <= raw[1] <= 207 {
        rtcpCount := rtcpCount + 1;
      } else {
        OnSrtp(d, tick);
      }
    }

    method OnSrtp(d: Decrypted, tick: bool)
      requires Valid()
      modifies this`rx, this`pool, this`frameBuf, this`log, this`droppedFrames, this`frameGapped, this`lastFrameTS,
               this`reports, this`stat, this`decryptErrors, frameBuf, pool
      ensures Valid() && Owned() >= old(Owned())
      ensures Abs() == if d.Decrypted? then Step(cb, old(Abs()), Event(d.pkt, tick)) else old(Abs())
      ensures decryptErrors == old(decryptErrors) + if d.DecryptError? then 1 else 0
    {
      ghost var s0 := Abs();
      var pp := Get();
      match d {
        case DecryptError =>
          Release(pp);
          decryptErrors := decryptErrors + 1;
        case UnmarshalError =>
          Release(pp);
        case Decrypted(pkt) =>
          pp.pkt := pkt;
          assert Abs() == s0;
          ReceiveVideo(pp, tick);
      }
    }
  }
}
