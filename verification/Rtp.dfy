/** RTP packets and the H.264 payload tests that every video component shares.
    Bytes are integers below 256: `b & 0x1F` is `b % 32`, `b & 0x80 != 0` is `b >= 128`. */
module Rtp {

  type Byte = x: int | 0 <= x < 256
  type Bytes = seq<Byte>

  const SEQ_MOD := 0x1_0000
  const TS_MOD := 0x1_0000_0000

  type Seq16 = x: int | 0 <= x < SEQ_MOD
  type U32 = x: int | 0 <= x < TS_MOD

  datatype Packet = Packet(seqNo: Seq16, ts: U32, marker: bool, pt: Byte, payload: Bytes)

  const STAP_A := 24
  const FU_A := 28

  function NalType(header: Byte): (t: Byte)
    ensures t < 32
  {
    header % 32
  }

  /** Does the payload open an access unit: a single NALU, a STAP-A, or a FU-A with its start bit? */
  predicate IsFrameStart(payload: Bytes) {
    |payload| >= 1 &&
    var t := NalType(payload[0]);
    || 1 <= t <= STAP_A
    || (t == FU_A && |payload| > 1 && payload[1] >= 128)
  }

  predicate IsStapA(payload: Bytes) {
    |payload| >= 1 && NalType(payload[0]) == STAP_A
  }

  /** A FU-A packet long enough to carry a FU header. */
  predicate IsFuA(payload: Bytes) {
    |payload| > 1 && NalType(payload[0]) == FU_A
  }

  /** The first fragment of an IDR slice (start bit set, original NAL type 5). */
  predicate IsIdrStart(payload: Bytes) {
    IsFuA(payload) && payload[1] >= 128 && NalType(payload[1]) == 5
  }

  /** The tests, byte by byte: types 1 to 23 are single NALUs, 24 is a STAP-A, 28 with a second byte a FU-A,
      whose top bit marks the start and whose low five bits name the NALU; nothing else is looked at. */
  lemma PayloadTable(p: Bytes)
    ensures p == [] ==> !IsFrameStart(p) && !IsStapA(p) && !IsFuA(p) && !IsIdrStart(p)
    ensures p != [] ==>
              var t := p[0] % 32;
              && (IsStapA(p) <==> t == 24)
              && (IsFuA(p) <==> t == 28 && |p| >= 2)
              && (IsFrameStart(p) <==> 1 <= t <= 24 || (t == 28 && |p| >= 2 && p[1] / 128 == 1))
              && (IsIdrStart(p) <==> t == 28 && |p| >= 2 && p[1] / 128 == 1 && p[1] % 32 == 5)
  {
  }

  function NextSeq(s: Seq16): Seq16 {
    (s + 1) % SEQ_MOD
  }
}
