/** The PCM accumulator between the AAC-ELD decoder and the AAC-LC encoder. Decoder and encoder are
    foreign: a call gets any decoded samples (or an error) and any encoder result code. */
module PcmRing {
  import opened Seqs

  type Sample = x: int | -32768 <= x <= 32767
  type Positive = n: nat | n > 0 witness 1

  // ---------- Gain ----------

  const TWO31 := 0x8000_0000
  const TWO32 := 0x1_0000_0000

  /** Two's complement truncation to 32 bits. */
  function Int32(x: int): (r: int)
    ensures -TWO31 <= r < TWO31
    ensures -TWO31 <= x < TWO31 ==> r == x
  {
    (x + TWO31) % TWO32 - TWO31
  }

  function Clamp(v: int): Sample {
    if v > 32767 then 32767 else if v < -32768 then -32768 else v
  }

  function Amplify(x: Sample, gain: int): Sample {
    if gain == 0 then x else Clamp(Int32(x * Int32(gain)))
  }

  function AmplifyAll(s: seq<Sample>, gain: int): (r: seq<Sample>)
    ensures |r| == |s|
    ensures forall i :: 0 <= i < |s| ==> r[i] == Amplify(s[i], gain)
  {
    seq(|s|, i requires 0 <= i < |s| => Amplify(s[i], gain))
  }

  lemma MulMono(a: int, b: int, c: int)
    requires a <= b && c >= 0
    ensures a * c <= b * c
  {
  }

  lemma ProductFits(x: Sample, g: int)
    requires -65535 <= g <= 65536
    ensures -TWO31 <= x * g < TWO31
  {
    if g >= 0 {
      MulMono(-32768, x, g);
      MulMono(x, 32767, g);
    } else {
      MulMono(-32768, x, -g);
      MulMono(x, 32767, -g);
      assert x * g == -(x * -g);
    }
  }

  /** The smallest multiple of h beyond a bound of 31 bits: x * h for some sample-sized x. */
  lemma FirstBeyond(h: int, bound: int) returns (x: int)
    requires 65535 < h && TWO31 - 1 <= bound <= TWO31 && bound < 32768 * h
    ensures 0 < x <= 32768 && bound < x * h <= bound + h
  {
    var q := bound / h;
    x := q + 1;
    DivBounds(bound, h);
    if q >= 32768 {
      MulMono(32768, q, h);
    }
    assert x * h == q * h + h;
  }

  lemma DivBounds(a: int, b: int)
    requires a >= 0 && b > 0
    ensures a / b >= 0 && (a / b) * b <= a < (a / b) * b + b
  {
  }

  lemma WrapOnce(p: int)
    ensures TWO31 <= p < 3 * TWO31 ==> Int32(p) == p - TWO32
    ensures -3 * TWO31 <= p < -TWO31 ==> Int32(p) == p + TWO32
  {
  }

  /** A product just outside the 32-bit range comes back with the other sign. */
  lemma OvershootWraps(g: int) returns (x: Sample)
    requires (65536 < g < TWO31) || (-TWO31 <= g < -65535)
    ensures Clamp(Int32(x * g)) != Clamp(x * g)
  {
    if g > 0 {
      var y := FirstBeyond(g, TWO31);
      x := -y;
      assert x * g == -(y * g);
    } else {
      var y := FirstBeyond(-g, TWO31 - 1);
      x := -y;
      assert x * g == y * -g;
    }
    WrapOnce(x * g);
  }

  /** Amplification is multiplication clamped to 16 bits, on every sample, if and only if the 32-bit
      gain is 0 (the samples pass unchanged) or lies in -65535..65536; outside, products wrap. */
  lemma GainSaturatesIff(gain: int)
    ensures gain == 0 ==> forall x: Sample :: Amplify(x, gain) == x
    ensures gain != 0 ==> ((forall x: Sample :: Amplify(x, gain) == Clamp(x * Int32(gain))) <==> -65535 <= Int32(gain) <= 65536)
  {
    var g := Int32(gain);
    if -65535 <= g <= 65536 {
      forall x: Sample ensures Amplify(x, gain) == (if gain == 0 then x else Clamp(x * g)) {
        ProductFits(x, g);
      }
    } else {
      var x := OvershootWraps(g);
      assert gain != 0 ==> Amplify(x, gain) != Clamp(x * g);
    }
  }

  /** For every such gain: the product, or the end of the 16-bit range it lies beyond. */
  lemma SaturatedProduct(x: Sample, gain: int)
    requires -65535 <= gain <= 65536 && gain != 0
    ensures Amplify(x, gain) == if x * gain > 32767 then 32767 else if x * gain < -32768 then -32768 else x * gain
  {
    ProductFits(x, gain);
  }

  /** Gains that agree modulo 2^32 amplify alike, except that only 0 itself passes samples through. */
  lemma GainWraps(x: Sample, gain: int, k: int)
    requires gain != 0 && gain + k * 0x1_0000_0000 != 0
    ensures Amplify(x, gain + k * 0x1_0000_0000) == Amplify(x, gain)
  {
    assert (gain + k * TWO32 + TWO31) % TWO32 == (gain + TWO31) % TWO32;
  }

  // ---------- One call ----------

  /** `decoded` is None when the decoder fails; `encode` is the encoder's result if it is asked. */
  datatype Call = Call(decoded: Option<seq<Sample>>, encode: int)

  datatype Outcome = DecodeFailed | Overflow | NeedMore | EncodeFailed | Encoded(size: nat)

  /** The accumulator of an encoder with frames of `size` samples holds three of them. */
  function Transcode(size: Positive, gain: int, pcm: seq<Sample>, c: Call): (seq<Sample>, Outcome) {
    if c.decoded.None? then (pcm, DecodeFailed)
    else if |pcm| + |c.decoded.value| > 3 * size then (pcm, Overflow)
    else
      var all := pcm + AmplifyAll(c.decoded.value, gain);
      if |all| < size then (all, NeedMore)
      else if c.encode < 0 then (all, EncodeFailed)
      else (all[size..], Encoded(c.encode))
  }

  // ---------- The accumulator in place ----------

  class Transcoder {
    const encFrameSize: Positive
    const gain: int
    const decBuf: array<Sample>
    const pcmRing: array<Sample>
    var pcmLen: nat
    var consumed: seq<seq<Sample>>  // what the encoder accepted

    ghost predicate Valid()
      reads this
    {
      pcmRing.Length == 3 * encFrameSize && pcmLen <= pcmRing.Length && decBuf != pcmRing
    }

    ghost function Pcm(): seq<Sample>
      requires Valid()
      reads this, pcmRing
    {
      pcmRing[..pcmLen]
    }

    constructor (encFrameSize: Positive, gain: int)
      ensures Valid() && Pcm() == [] && consumed == [] && fresh(decBuf) && fresh(pcmRing)
      ensures this.encFrameSize == encFrameSize && this.gain == gain && decBuf.Length == 8192
    {
      this.encFrameSize := encFrameSize;
      this.gain := gain;
      decBuf := new Sample[8192];
      pcmRing := new Sample[3 * encFrameSize];
      pcmLen, consumed := 0, [];
    }

    /** The gain loop overwrites the decoder's buffer. */
    method ApplyGain(decoded: nat)
      requires decoded <= decBuf.Length
      modifies decBuf
      ensures decBuf[..decoded] == AmplifyAll(old(decBuf[..decoded]), gain)
    {
      if gain != 0 {
        for i := 0 to decoded
          invariant forall j :: 0 <= j < i ==> decBuf[j] == Amplify(old(decBuf[j]), gain)
          invariant forall j :: i <= j < decBuf.Length ==> decBuf[j] == old(decBuf[j])
        {
          var v := Int32(decBuf[i] * Int32(gain));
          if v > 32767 {
            v := 32767;
          } else if v < -32768 {
            v := -32768;
          }
          decBuf[i] := v;
        }
      }
    }

    method Accumulate(decoded: nat)
      requires Valid() && decoded <= decBuf.Length && pcmLen + decoded <= pcmRing.Length
      modifies pcmRing, this`pcmLen
      ensures Valid() && pcmLen == old(pcmLen) + decoded
      ensures Pcm() == old(Pcm()) + decBuf[..decoded]
    {
      for i := 0 to decoded
        invariant pcmLen == old(pcmLen)
        invariant forall j :: 0 <= j < pcmLen ==> pcmRing[j] == old(pcmRing[j])
        invariant forall j :: 0 <= j < i ==> pcmRing[pcmLen + j] == decBuf[j]
      {
        pcmRing[pcmLen + i] := decBuf[i];
      }
      pcmLen := pcmLen + decoded;
    }

    /** Move what is left behind the encoded frame to the front; source and target may overlap. */
    method Shift()
      requires Valid() && encFrameSize <= pcmLen
      modifies pcmRing, this`pcmLen
      ensures Valid() && pcmLen == old(pcmLen) - encFrameSize
      ensures Pcm() == old(Pcm())[encFrameSize..]
    {
      var remaining := pcmLen - encFrameSize;
      for i := 0 to remaining
        invariant forall j :: 0 <= j < i ==> pcmRing[j] == old(pcmRing[encFrameSize + j])
        invariant forall j :: i <= j < pcmRing.Length ==> pcmRing[j] == old(pcmRing[j])
      {
        pcmRing[i] := pcmRing[encFrameSize + i];
      }
      pcmLen := remaining;
    }

    /** One frame: the decoder left nSamples in decBuf or failed; encodeResult is what the encoder
        answers if it is asked. */
    method TranscodeFrame(nSamples: int, encodeResult: int) returns (outcome: Outcome)
      requires Valid() && nSamples <= decBuf.Length
      modifies decBuf, pcmRing, this`pcmLen, this`consumed
      ensures Valid()
      ensures var c := Call(if nSamples < 0 then None else Some(old(decBuf[..nSamples])), encodeResult);
              (Pcm(), outcome) == Transcode(encFrameSize, gain, old(Pcm()), c)
      ensures outcome.Encoded? ==> |consumed| == |old(consumed)| + 1 && consumed[..|old(consumed)|] == old(consumed)
      ensures outcome.Encoded? ==>
                (consumed[|old(consumed)|] + Pcm() == old(Pcm()) + AmplifyAll(old(decBuf[..nSamples]), gain))
      ensures !outcome.Encoded? ==> consumed == old(consumed)
    {
      if nSamples < 0 {
        return DecodeFailed;
      }
      if pcmLen + nSamples > pcmRing.Length {
        return Overflow;
      }
      ApplyGain(nSamples);
      Accumulate(nSamples);
      if pcmLen < encFrameSize {
        return NeedMore;
      }
      if encodeResult < 0 {
        return EncodeFailed;
      }
      consumed := consumed + [pcmRing[..encFrameSize]];
      ghost var all := Pcm();
      assert all[..encFrameSize] == pcmRing[..encFrameSize];
      Shift();
      assert all[..encFrameSize] + all[encFrameSize..] == all;
      return Encoded(encodeResult);
    }
  }

  // ---------- Whole runs ----------

  /** `accepted`: every amplified sample that passed the overflow check; `frames`: what the encoder
      consumed. */
  datatype History = History(
    pcm: seq<Sample>, accepted: seq<Sample>, frames: seq<seq<Sample>>, encodeErrors: nat, overflows: nat)

  const Init := History([], [], [], 0, 0)

  function More(gain: int, c: Call): seq<Sample> {
    if c.decoded.Some? then AmplifyAll(c.decoded.value, gain) else []
  }

  function Step(size: Positive, gain: int, h: History, c: Call): History {
    var (pcm, outcome) := Transcode(size, gain, h.pcm, c);
    var more := More(gain, c);
    match outcome
    case DecodeFailed => h
    case Overflow => h.(overflows := h.overflows + 1)
    case NeedMore => h.(pcm := pcm, accepted := h.accepted + more)
    case EncodeFailed => h.(pcm := pcm, accepted := h.accepted + more, encodeErrors := h.encodeErrors + 1)
    case Encoded(_) => h.(pcm := pcm, accepted := h.accepted + more, frames := h.frames + [(h.pcm + more)[..size]])
  }

  function Run(size: Positive, gain: int, calls: seq<Call>): History {
    RunFrom(size, gain, Init, calls)
  }

  function RunFrom(size: Positive, gain: int, h: History, calls: seq<Call>): History {
    if calls == [] then h
    else Step(size, gain, RunFrom(size, gain, h, calls[..|calls| - 1]), calls[|calls| - 1])
  }

  lemma RunSnoc(size: Positive, gain: int, h: History, calls: seq<Call>, c: Call)
    ensures RunFrom(size, gain, h, calls + [c]) == Step(size, gain, RunFrom(size, gain, h, calls), c)
  {
    assert (calls + [c])[..|calls|] == calls;
  }

  ghost predicate Fifo(size: Positive, h: History) {
    && h.accepted == Flatten(h.frames) + h.pcm
    && (forall i :: 0 <= i < |h.frames| ==> |h.frames[i]| == size)
    && |h.pcm| <= 3 * size
  }

  lemma EncodedFifo(size: Positive, frames: seq<seq<Sample>>, pcm: seq<Sample>, more: seq<Sample>)
    requires |pcm + more| >= size
    ensures var all := pcm + more;
            Flatten(frames + [all[..size]]) + all[size..] == Flatten(frames) + pcm + more
  {
    var all := pcm + more;
    FlattenSnoc(frames, all[..size]);
    Assoc(Flatten(frames), all[..size], all[size..]);
    assert all[..size] + all[size..] == all;
    Assoc(Flatten(frames), pcm, more);
  }

  lemma StepFifo(size: Positive, gain: int, h: History, c: Call)
    requires Fifo(size, h)
    ensures Fifo(size, Step(size, gain, h, c))
  {
    var outcome, more := Transcode(size, gain, h.pcm, c).1, More(gain, c);
    if outcome.Encoded? {
      EncodedFifo(size, h.frames, h.pcm, more);
    } else if outcome.NeedMore? || outcome.EncodeFailed? {
      Assoc(Flatten(h.frames), h.pcm, more);
    }
  }

  /** In every run, whatever fails: the accepted samples, amplified, are the frames the encoder
      consumed, each of exactly `size` samples, followed by the accumulator. */
  lemma {:induction false} FifoAlways(size: Positive, gain: int, calls: seq<Call>)
    ensures Fifo(size, Run(size, gain, calls))
  {
    if calls == [] {
    } else {
      FifoAlways(size, gain, calls[..|calls| - 1]);
      StepFifo(size, gain, Run(size, gain, calls[..|calls| - 1]), calls[|calls| - 1]);
    }
  }

  /** What one call does to the history, by the counts of samples: with a decoder error, or samples that do not
      fit three encoder frames, nothing is accepted; otherwise the amplified samples are, and once a frame is
      full, the encoder takes exactly one if its answer is not negative, and none if it is. */
  lemma CallOutcome(size: Positive, gain: int, h: History, c: Call)
    ensures var r := Step(size, gain, h, c);
            if c.decoded.None? then r == h
            else if |h.pcm| + |c.decoded.value| > 3 * size then r == h.(overflows := h.overflows + 1)
            else
              var full := |h.pcm| + |c.decoded.value| >= size;
              && |r.accepted| == |h.accepted| + |c.decoded.value|
              && |r.frames| == |h.frames| + (if full && c.encode >= 0 then 1 else 0)
              && r.encodeErrors == h.encodeErrors + (if full && c.encode < 0 then 1 else 0)
              && r.overflows == h.overflows
  {
  }

  // ---------- How many encoder errors the accumulator survives ----------

  /** Decoded frames have at most d samples and, like d and the encoder's frames, a multiple of g. */
  ghost predicate Grained(size: Positive, d: Positive, g: Positive, calls: seq<Call>) {
    && size % g == 0 && d % g == 0
    && forall i :: 0 <= i < |calls| && calls[i].decoded.Some? ==>
         |calls[i].decoded.value| <= d && |calls[i].decoded.value| % g == 0
  }

  lemma MultiplesAdd(a: int, b: int, g: Positive)
    requires a % g == 0 && b % g == 0
    ensures (a + b) % g == 0 && (a - b) % g == 0
  {
    DivMod(a, g);
    DivMod(b, g);
    ModOfMultiple(a / g + b / g, g);
    ModOfMultiple(a / g - b / g, g);
    assert a + b == (a / g + b / g) * g && a - b == (a / g - b / g) * g;
  }

  lemma DivMod(a: int, g: Positive)
    ensures a == (a / g) * g + a % g
  {
  }

  lemma ModOfMultiple(k: int, g: Positive)
    ensures (k * g) % g == 0
  {
    DivMod(k * g, g);
    var q, r := (k * g) / g, (k * g) % g;
    assert r == (k - q) * g;
    if k - q >= 1 {
      MulMono(1, k - q, g);
    } else if k - q <= -1 {
      MulMono(k - q, -1, g);
    }
  }

  /** Multiples of g keep a distance of g. */
  lemma MultiplesApart(a: int, b: int, g: Positive)
    requires a % g == 0 && b % g == 0 && a < b
    ensures a <= b - g
  {
    DivMod(a, g);
    DivMod(b, g);
    if a / g >= b / g {
      MulMono(b / g, a / g, g);
    }
    MulMono(a / g + 1, b / g, g);
  }

  ghost predicate Level(size: Positive, d: Positive, g: Positive, h: History) {
    h.overflows == 0 && |h.pcm| % g == 0 && |h.pcm| <= size - g + h.encodeErrors * d
  }

  lemma StepLevel(size: Positive, d: Positive, g: Positive, gain: int, h: History, c: Call)
    requires Grained(size, d, g, [c]) && d <= size && Level(size, d, g, h)
    requires (h.encodeErrors + 1) * d <= 2 * size + g
    ensures Level(size, d, g, Step(size, gain, h, c))
  {
    assert c == [c][0];
    if c.decoded.Some? {
      var n := |c.decoded.value|;
      var all := |h.pcm| + n;
      assert (h.encodeErrors + 1) * d == h.encodeErrors * d + d;
      MultiplesAdd(|h.pcm|, n, g);
      MultiplesAdd(all, size, g);
      if all < size {
        MultiplesApart(all, size, g);
      }
      MulMono(0, h.encodeErrors, d);
    }
  }

  lemma ErrorsGrow(size: Positive, gain: int, h: History, c: Call)
    ensures h.encodeErrors <= Step(size, gain, h, c).encodeErrors
  {
  }

  /** If decoded frames have at most d <= size samples, a multiple of g, then after e encoder errors at
      most size - g + e * d samples are held, and nothing overflows while (e + 1) * d <= 2 * size + g. */
  lemma {:induction false} NoOverflow(size: Positive, d: Positive, g: Positive, gain: int, calls: seq<Call>)
    requires Grained(size, d, g, calls) && d <= size
    requires (Run(size, gain, calls).encodeErrors + 1) * d <= 2 * size + g
    ensures var h := Run(size, gain, calls);
            h.overflows == 0 && |h.pcm| <= size - g + h.encodeErrors * d
    ensures Level(size, d, g, Run(size, gain, calls))
  {
    if calls != [] {
      var front, last := calls[..|calls| - 1], calls[|calls| - 1];
      var h := Run(size, gain, front);
      ErrorsGrow(size, gain, h, last);
      MulMono(h.encodeErrors + 1, Run(size, gain, calls).encodeErrors + 1, d);
      NoOverflow(size, d, g, gain, front);
      StepLevel(size, d, g, gain, h, last);
    } else {
      MultiplesApart(0, size, g);
    }
  }

  function Repeat(c: Call, n: nat): (r: seq<Call>)
    ensures |r| == n
    ensures forall i :: 0 <= i < n ==> r[i] == c
  {
    seq(n, _ => c)
  }

  /** n samples, and the encoder's answer should it be asked. */
  function Frame(n: nat, encode: int): (c: Call)
    ensures c.decoded.Some? && |c.decoded.value| == n
  {
    Call(Some(seq(n, _ => 0)), encode)
  }

  lemma RunRepeat(size: Positive, gain: int, h: History, c: Call, n: nat)
    ensures RunFrom(size, gain, h, Repeat(c, n + 1)) == Step(size, gain, RunFrom(size, gain, h, Repeat(c, n)), c)
  {
    assert Repeat(c, n + 1) == Repeat(c, n) + [c];
    RunSnoc(size, gain, h, Repeat(c, n), c);
  }

  lemma {:induction false} RunConcat(size: Positive, gain: int, h: History, a: seq<Call>, b: seq<Call>)
    ensures RunFrom(size, gain, h, a + b) == RunFrom(size, gain, RunFrom(size, gain, h, a), b)
  {
    if b == [] {
      assert a + b == a;
    } else {
      var front, last := b[..|b| - 1], b[|b| - 1];
      assert a + b == (a + front) + [last];
      RunConcat(size, gain, h, a, front);
      RunSnoc(size, gain, h, a + front, last);
    }
  }

  /** Frames that do not fill an encoder frame collect. */
  lemma {:induction false} Collect(size: Positive, gain: int, d: Positive, encode: int, n: nat)
    requires n * d < size
    ensures var r := Run(size, gain, Repeat(Frame(d, encode), n));
            |r.pcm| == n * d && r.encodeErrors == 0 && r.overflows == 0
  {
    if n == 0 {
    } else {
      assert n * d == (n - 1) * d + d;
      Collect(size, gain, d, encode, n - 1);
      RunRepeat(size, gain, Init, Frame(d, encode), n - 1);
    }
  }

  /** Frames the encoder fails on pile up. */
  lemma {:induction false} PileUp(size: Positive, gain: int, h: History, d: Positive, n: nat)
    requires |h.pcm| + d >= size && |h.pcm| + n * d <= 3 * size
    ensures var r := RunFrom(size, gain, h, Repeat(Frame(d, -1), n));
            |r.pcm| == |h.pcm| + n * d && r.encodeErrors == h.encodeErrors + n && r.overflows == h.overflows
  {
    if n == 0 {
    } else {
      assert n * d == (n - 1) * d + d;
      MulMono(0, n - 1, d);
      PileUp(size, gain, h, d, n - 1);
      RunRepeat(size, gain, h, Frame(d, -1), n - 1);
    }
  }

  /** Frames longer than the encoder's leave a surplus each. */
  lemma {:induction false} Surplus(size: Positive, gain: int, d: Positive, n: nat)
    requires d > size && (n > 0 ==> (n - 1) * (d - size) + d <= 3 * size)
    ensures var r := Run(size, gain, Repeat(Frame(d, 0), n));
            |r.pcm| == n * (d - size) && r.encodeErrors == 0 && r.overflows == 0
  {
    if n == 0 {
    } else {
      assert n * (d - size) == (n - 1) * (d - size) + (d - size);
      if n > 1 {
        MulMono(n - 2, n - 1, d - size);
      }
      MulMono(0, n - 1, d - size);
      Surplus(size, gain, d, n - 1);
      RunRepeat(size, gain, Init, Frame(d, 0), n - 1);
    }
  }

  ghost predicate Overflows(size: Positive, gain: int, calls: seq<Call>, errors: nat) {
    var h := Run(size, gain, calls);
    h.encodeErrors <= errors && h.overflows > 0
  }

  lemma QuotientGrows(a: nat, b: nat, d: Positive)
    requires a <= b
    ensures a / d <= b / d
  {
    DivBounds(a, d);
    DivBounds(b, d);
    assert (b / d + 1) * d == (b / d) * d + d;
    if a / d > b / d {
      MulMono(b / d + 1, a / d, d);
    }
  }

  /** Enough failing frames of d samples on top of size - g. */
  lemma ErrorCount(size: Positive, d: Positive, g: Positive, e: nat) returns (m: nat)
    requires (e + 1) * d > 2 * size + g
    ensures m <= e && m * d <= 2 * size + g < m * d + d
  {
    m := (2 * size + g) / d;
    DivBounds(2 * size + g, d);
    if e < m {
      MulMono(e + 1, m, d);
    }
  }

  lemma FillUp(size: Positive, gain: int, g: Positive) returns (k: nat)
    requires size % g == 0
    ensures k * g == size - g
    ensures var h := Run(size, gain, Repeat(Frame(g, 0), k));
            |h.pcm| == size - g && h.encodeErrors == 0 && h.overflows == 0
  {
    DivMod(size, g);
    if size / g <= 0 {
      MulMono(size / g, 0, g);
    }
    k := size / g - 1;
    Collect(size, gain, g, 0, k);
  }

  /** Failing frames of d samples behind a run that has no overflow yet, until one does not fit. */
  lemma PileOver(size: Positive, gain: int, quiet: seq<Call>, d: Positive, m: nat)
    requires var h := Run(size, gain, quiet);
             h.encodeErrors == 0 && |h.pcm| + d >= size && |h.pcm| + m * d <= 3 * size < |h.pcm| + m * d + d
    ensures var r := Run(size, gain, quiet + Repeat(Frame(d, -1), m + 1));
            r.encodeErrors == m && r.overflows > 0
  {
    var h, c := Run(size, gain, quiet), Frame(d, -1);
    PileUp(size, gain, h, d, m);
    RunRepeat(size, gain, h, c, m);
    RunConcat(size, gain, Init, quiet, Repeat(c, m + 1));
  }

  lemma OverflowByErrors(size: Positive, gain: int, d: Positive, g: Positive, e: nat) returns (calls: seq<Call>)
    requires size % g == 0 && d % g == 0 && (e + 1) * d > 2 * size + g
    ensures Grained(size, d, g, calls) && Overflows(size, gain, calls, e)
  {
    var k := FillUp(size, gain, g);
    var m := ErrorCount(size, d, g, e);
    MultiplesApart(0, d, g);
    ModOfMultiple(1, g);
    var quiet := Repeat(Frame(g, 0), k);
    PileOver(size, gain, quiet, d, m);
    calls := quiet + Repeat(Frame(d, -1), m + 1);
  }

  /** Enough frames of d samples to fill the accumulator with their surplus. */
  lemma SurplusCount(size: Positive, d: Positive) returns (n: nat)
    requires d > size
    ensures n * (d - size) + d > 3 * size
    ensures n > 0 ==> (n - 1) * (d - size) + d <= 3 * size
  {
    if d > 3 * size {
      n := 0;
    } else {
      DivBounds(3 * size - d, d - size);
      n := (3 * size - d) / (d - size) + 1;
      assert n * (d - size) == (n - 1) * (d - size) + (d - size);
    }
  }

  lemma OverflowBySurplus(size: Positive, gain: int, d: Positive, g: Positive) returns (calls: seq<Call>)
    requires size % g == 0 && d % g == 0 && d > size
    ensures Grained(size, d, g, calls) && Overflows(size, gain, calls, 0)
  {
    var n := SurplusCount(size, d);
    Surplus(size, gain, d, n);
    RunRepeat(size, gain, Init, Frame(d, 0), n);
    calls := Repeat(Frame(d, 0), n + 1);
  }

  /** Exactly when e encoder errors can make the accumulator overflow: decoded frames of at most d
      samples, all multiples of g, do it if and only if d exceeds the encoder's frame or
      (e + 1) * d exceeds 2 * size + g. */
  lemma OverflowIff(size: Positive, gain: int, d: Positive, g: Positive, e: nat)
    requires size % g == 0 && d % g == 0
    ensures (exists calls :: Grained(size, d, g, calls) && Overflows(size, gain, calls, e))
            <==> d > size || (e + 1) * d > 2 * size + g
  {
    if d > size {
      var calls := OverflowBySurplus(size, gain, d, g);
      assert Overflows(size, gain, calls, e);
    } else if (e + 1) * d > 2 * size + g {
      var calls := OverflowByErrors(size, gain, d, g, e);
    } else {
      forall calls | Grained(size, d, g, calls) ensures !Overflows(size, gain, calls, e) {
        if Run(size, gain, calls).encodeErrors <= e {
          MulMono(Run(size, gain, calls).encodeErrors + 1, e + 1, d);
          NoOverflow(size, d, g, gain, calls);
        }
      }
    }
  }

  /** A decoder with frames of one length. */
  predicate ConstantFrames(d: Positive, calls: seq<Call>) {
    forall i :: 0 <= i < |calls| && calls[i].decoded.Some? ==> |calls[i].decoded.value| == d
  }

  lemma FrameCounts(size: Positive, d: Positive) returns (k: nat, n: nat)
    ensures k == (size - 1) / d && n == 3 * size / d && k <= n
    ensures k * d < size <= k * d + d
    ensures k * d + (n - k) * d <= 3 * size < k * d + (n - k) * d + d
  {
    k, n := (size - 1) / d, 3 * size / d;
    DivBounds(size - 1, d);
    DivBounds(3 * size, d);
    QuotientGrows(size - 1, 3 * size, d);
    assert n * d == k * d + (n - k) * d;
  }

  /** Frames of one length and an encoder that fails from the start: the accumulator overflows after
      3 * size / d - (size - 1) / d errors. */
  lemma ConstantFramesOverflow(size: Positive, gain: int, d: Positive) returns (calls: seq<Call>)
    ensures ConstantFrames(d, calls) && Run(size, gain, calls).overflows > 0
    ensures Run(size, gain, calls).encodeErrors == 3 * size / d - (size - 1) / d
  {
    var k, n := FrameCounts(size, d);
    var c := Frame(d, -1);
    Collect(size, gain, d, -1, k);
    PileOver(size, gain, Repeat(c, k), d, n - k);
    calls := Repeat(c, k) + Repeat(c, n - k + 1);
  }

  /** The codecs in use: AAC-LC frames of 1024 samples, AAC-ELD frames of always 480 or always 512. An
      overflow takes four encoder errors with 480 and five with 512. */
  lemma AacOverflowIff(gain: int, d: Positive, e: nat)
    requires d == 480 || d == 512
    ensures (exists calls :: ConstantFrames(d, calls) && Overflows(1024, gain, calls, e))
            <==> e >= if d == 480 then 4 else 5
  {
    var g: Positive := if d == 480 then 32 else 512;
    if e >= if d == 480 then 4 else 5 {
      var calls := ConstantFramesOverflow(1024, gain, d);
      assert Overflows(1024, gain, calls, e);
    } else {
      OverflowIff(1024, gain, d, g, e);
      forall calls | ConstantFrames(d, calls) ensures !Overflows(1024, gain, calls, e) {
        assert Grained(1024, d, g, calls);
      }
    }
  }

  /** An overflow does not heal: the encoder is not asked again until a frame small enough to fit
      arrives, so frames that do not fit change nothing, however many follow. */
  lemma {:induction false} OverflowWedges(size: Positive, gain: int, h: History, calls: seq<Call>)
    requires forall i :: 0 <= i < |calls| && calls[i].decoded.Some? ==> |h.pcm| + |calls[i].decoded.value| > 3 * size
    ensures var r := RunFrom(size, gain, h, calls);
            r.pcm == h.pcm && r.frames == h.frames && r.accepted == h.accepted
  {
    if calls == [] {
    } else {
      OverflowWedges(size, gain, h, calls[..|calls| - 1]);
    }
  }
}
