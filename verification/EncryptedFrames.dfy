/** The bytes of the encrypted connection, written out: what a foreign peer with the same keys must send and
    gets to see. Lengths, counters and nonces are given as sums of digits. */
module EncryptedFrames {
  import opened Endian
  import opened EncryptedConn
  import opened EncryptedLink
  import opened Rtp
  import opened Seqs

  /** Twelve bytes: four zeros, then the counter modulo 2^64, lowest byte first. */
  predicate IsNonce(b: Bytes, n: nat) {
    && |b| == 12
    && b[0] == 0 && b[1] == 0 && b[2] == 0 && b[3] == 0
    && Value8(b[4], b[5], b[6], b[7], b[8], b[9], b[10], b[11]) == n % 0x1_0000_0000_0000_0000
  }

  function Value8(b0: int, b1: int, b2: int, b3: int, b4: int, b5: int, b6: int, b7: int): int {
    b0 + 0x100 * b1 + 0x1_0000 * b2 + 0x100_0000 * b3 + 0x1_0000_0000 * b4 + 0x100_0000_0000 * b5
    + 0x1_0000_0000_0000 * b6 + 0x100_0000_0000_0000 * b7
  }

  /** A frame with number n: its length in two bytes, lowest first, and the text sealed under the nonce of n
      with these two bytes as associated data. */
  ghost predicate IsFrame(aead: Aead, n: nat, text: Bytes, frame: Bytes) {
    exists nonce: Bytes, lo: Byte, hi: Byte ::
      IsNonce(nonce, n) && Value2(lo, hi) == |text| && frame == [lo, hi] + aead.seal(nonce, text, [lo, hi])
  }

  lemma {:induction false} ValueStep(b: Bytes, i: nat)
    requires i < |b|
    ensures GetLE(b[i..]) == b[i] as int + 256 * GetLE(b[i + 1..])
  {
    assert b[i..][0] == b[i] && b[i..][1..] == b[i + 1..];
  }

  lemma {:induction false} ValueOfFour(b: Bytes, i: nat)
    requires i + 4 <= |b|
    ensures GetLE(b[i..]) == b[i] as int + 0x100 * b[i + 1] as int + 0x1_0000 * b[i + 2] as int
                             + 0x100_0000 * b[i + 3] as int + 0x1_0000_0000 * GetLE(b[i + 4..])
  {
    ValueStep(b, i);
    ValueStep(b, i + 1);
    ValueStep(b, i + 2);
    ValueStep(b, i + 3);
  }

  lemma {:induction false} ValueOfEight(b: Bytes)
    requires |b| == 8
    ensures GetLE(b) == Value8(b[0], b[1], b[2], b[3], b[4], b[5], b[6], b[7])
  {
    assert b[0..] == b && b[8..] == [];
    ValueOfFour(b, 0);
    ValueOfFour(b, 4);
  }

  lemma {:induction false} DigitsOfEight(n: nat)
    requires n < 0x1_0000_0000_0000_0000
    ensures var b := PutLE(n, 8); Value8(b[0], b[1], b[2], b[3], b[4], b[5], b[6], b[7]) == n
  {
    WidthOfCounter();
    LittleEndianRoundTrip(n, 8);
    ValueOfEight(PutLE(n, 8));
  }

  lemma NonceLayout(n: nat)
    ensures IsNonce(Nonce(n), n)
  {
    DigitsOfEight(n % 0x1_0000_0000_0000_0000);
    var b := PutLE(n % COUNTER_MOD, 8);
    assert forall i :: 0 <= i < 8 ==> Nonce(n)[4 + i] == b[i];
  }

  lemma SealedIsFrame(aead: Aead, n: nat, text: Bytes)
    requires |text| <= 1024
    ensures IsFrame(aead, n, text, Sealed(aead, n, text))
  {
    TwoBytes(|text|);
    NonceLayout(n);
    var lo: Byte, hi: Byte := |text| % 256, |text| / 256;
    assert IsNonce(Nonce(n), n) && Sealed(aead, n, text) == [lo, hi] + aead.seal(Nonce(n), text, [lo, hi]);
  }

  // ---------- What Write puts on the wire ----------

  /** `frames` are the sealed `texts`, numbered from cnt. */
  ghost predicate AreFrames(aead: Aead, cnt: nat, texts: seq<Bytes>, frames: seq<Bytes>) {
    |frames| == |texts| && forall i :: 0 <= i < |texts| ==> IsFrame(aead, cnt + i, texts[i], frames[i])
  }

  /** All but the last text are full. */
  predicate Cut(texts: seq<Bytes>, b: Bytes) {
    && Flatten(texts) == b
    && forall i :: 0 <= i < |texts| ==> 1 <= |texts[i]| <= 1024 && (i < |texts| - 1 ==> |texts[i]| == 1024)
  }

  lemma {:induction false} ChunksAreCut(b: Bytes)
    ensures Cut(Chunks(b), b)
    decreases |b|
  {
    if b == [] {
    } else {
      var head, rest := b[..ChunkSize(b)], b[ChunkSize(b)..];
      ChunksAreCut(rest);
      ChunksFlatten(b);
      assert Chunks(b) == [head] + Chunks(rest);
      assert Chunks(rest) != [] ==> |b| > 1024;
    }
  }

  function FramesOf(aead: Aead, cnt: nat, texts: seq<Bytes>): (fs: seq<Bytes>)
    ensures |fs| == |texts|
    ensures forall i :: 0 <= i < |texts| ==> fs[i] == Sealed(aead, cnt + i, texts[i])
  {
    seq(|texts|, i requires 0 <= i < |texts| => Sealed(aead, cnt + i, texts[i]))
  }

  lemma {:induction false} FramesSnoc(aead: Aead, cnt: nat, texts: seq<Bytes>, text: Bytes)
    ensures FramesOf(aead, cnt, texts + [text]) == FramesOf(aead, cnt, texts) + [Sealed(aead, cnt + |texts|, text)]
  {
  }

  lemma {:induction false} WireIsFramesSnoc(aead: Aead, cnt: nat, texts: seq<Bytes>, text: Bytes)
    requires WireOf(aead, cnt, texts) == Flatten(FramesOf(aead, cnt, texts))
    ensures WireOf(aead, cnt, texts + [text]) == Flatten(FramesOf(aead, cnt, texts + [text]))
  {
    WireSnoc(aead, cnt, texts, text);
    FramesSnoc(aead, cnt, texts, text);
    FlattenSnoc(FramesOf(aead, cnt, texts), Sealed(aead, cnt + |texts|, text));
  }

  lemma {:induction false} WireIsFrames(aead: Aead, cnt: nat, texts: seq<Bytes>)
    ensures WireOf(aead, cnt, texts) == Flatten(FramesOf(aead, cnt, texts))
  {
    if texts == [] {
      assert FramesOf(aead, cnt, texts) == [];
    } else {
      var init, last := texts[..|texts| - 1], texts[|texts| - 1];
      assert texts == init + [last];
      WireIsFrames(aead, cnt, init);
      WireIsFramesSnoc(aead, cnt, init, last);
    }
  }

  /** The first n frames and, if `partial`, the two length bytes of the next. */
  ghost predicate SendsUpTo(w: Written, cnt: nat, texts: seq<Bytes>, frames: seq<Bytes>, n: nat, partial: bool)
    requires |texts| == |frames| && n <= |frames|
  {
    && (partial ==> n < |frames| && |frames[n]| >= 2)
    && w.wire == Flatten(frames[..n]) + (if partial then frames[n][..2] else [])
    && w.total == |Flatten(texts[..n])|
    && w.cnt == cnt + n + if partial then 1 else 0
  }

  lemma FramesPrefix(aead: Aead, cnt: nat, texts: seq<Bytes>, n: nat)
    requires n <= |texts|
    ensures FramesOf(aead, cnt, texts)[..n] == FramesOf(aead, cnt, texts[..n])
  {
  }

  lemma SealedStarts(aead: Aead, cnt: nat, text: Bytes)
    ensures Sealed(aead, cnt, text)[..2] == PutLE(|text|, 2)
  {
  }

  lemma SendsSome(aead: Aead, cnt: nat, b: Bytes, accepts: nat)
    ensures var texts, w := Chunks(b), WriteCall(aead, cnt, b, accepts);
            var frames := FramesOf(aead, cnt, texts);
            if accepts >= 2 * |texts| then SendsUpTo(w, cnt, texts, frames, |texts|, false)
            else SendsUpTo(w, cnt, texts, frames, accepts / 2, accepts % 2 == 1)
  {
    var texts := Chunks(b);
    var n := Min(|texts|, accepts / 2);
    WireIsFrames(aead, cnt, texts[..n]);
    FramesPrefix(aead, cnt, texts, n);
    if n < |texts| {
      SealedStarts(aead, cnt + n, texts[n]);
    } else {
      assert texts[..n] == texts;
    }
  }

  /** `frames` are the numbered frames of the data cut into `texts`, and the call has sent as many as the
      transport had room for. */
  ghost predicate SendsFrames(aead: Aead, cnt: nat, b: Bytes, accepts: nat, w: Written, texts: seq<Bytes>, frames: seq<Bytes>) {
    && Cut(texts, b) && AreFrames(aead, cnt, texts, frames)
    && (w.ok <==> accepts >= 2 * |texts| + 1)
    && if accepts >= 2 * |texts| then SendsUpTo(w, cnt, texts, frames, |texts|, false)
       else SendsUpTo(w, cnt, texts, frames, accepts / 2, accepts % 2 == 1)
  }

  lemma {:induction false} SealedAreFrames(aead: Aead, cnt: nat, texts: seq<Bytes>)
    requires forall i :: 0 <= i < |texts| ==> |texts[i]| <= 1024
    ensures AreFrames(aead, cnt, texts, FramesOf(aead, cnt, texts))
  {
    var frames := FramesOf(aead, cnt, texts);
    forall i | 0 <= i < |texts| ensures IsFrame(aead, cnt + i, texts[i], frames[i]) {
      SealedIsFrame(aead, cnt + i, texts[i]);
    }
  }

  /** A Write call, byte for byte: the data is cut into texts of 1024 bytes, the last one possibly shorter,
      and their frames go out in order, numbered from the counter. A transport that takes only `accepts`
      more operations, two per frame and one for the flush, gets the frames it has room for, and of the next
      one its length if a single operation is left; the count returned covers the whole frames, and every
      frame begun has used up its number. */
  lemma WriteSendsFrames(aead: Aead, cnt: nat, b: Bytes, accepts: nat)
    ensures exists texts: seq<Bytes>, frames: seq<Bytes> ::
              SendsFrames(aead, cnt, b, accepts, WriteCall(aead, cnt, b, accepts), texts, frames)
  {
    ChunksAreCut(b);
    SealedAreFrames(aead, cnt, Chunks(b));
    SendsSome(aead, cnt, b, accepts);
    assert SendsFrames(aead, cnt, b, accepts, WriteCall(aead, cnt, b, accepts), Chunks(b), FramesOf(aead, cnt, Chunks(b)));
  }

  // ---------- What Read makes of the bytes that arrive ----------

  lemma TakesFrame(aead: Aead, r: Reader, lo: Byte, hi: Byte, body: Bytes, rest: Bytes)
    requires r.inbox == [lo, hi] + body + rest && |body| == Value2(lo, hi) + 16
    ensures exists nonce :: IsNonce(nonce, r.cnt) && TakeFrame(aead, r) == Frame(aead.open(nonce, body, [lo, hi]), rest)
  {
    NonceLayout(r.cnt);
    TwoByteValue(lo, hi);
    assert r.inbox[..2] == [lo, hi] && r.inbox[2..2 + |body|] == body && r.inbox[2 + |body|..] == rest;
  }

  lemma LacksFrame(aead: Aead, r: Reader)
    requires |r.inbox| < 2 || |r.inbox| < 2 + Value2(r.inbox[0], r.inbox[1]) + 16
    ensures TakeFrame(aead, r) == NoFrame
  {
    if |r.inbox| >= 2 {
      TwoByteValue(r.inbox[0], r.inbox[1]);
      assert r.inbox[..2] == [r.inbox[0], r.inbox[1]];
    }
  }

  /** What a Read into n bytes makes of an opened text. */
  predicate Hands(res: ReadResult, next: Reader, text: Bytes, n: nat) {
    && res.Data? && res.bytes + next.buf == text
    && |res.bytes| == if n < |text| then n else |text|
  }

  /** A Read into n bytes, byte for byte. Buffered text comes first. Else a whole frame, two length bytes
      and the text with its 16-byte tag, is opened under the nonce of the counter with the length as
      associated data; opened or not, the frame is consumed and its number used up. Without a whole frame
      the stream has ended and the bytes short of it are gone. */
  lemma ReadTakesFrame(aead: Aead, r: Reader, n: nat)
    ensures var (next, res) := ReadCall(aead, r, n);
            if r.buf != [] then Hands(res, next, r.buf, n) && next.cnt == r.cnt && next.inbox == r.inbox
            else if |r.inbox| < 2 || |r.inbox| < 2 + Value2(r.inbox[0], r.inbox[1]) + 16 then
              res == Eof && next == Reader([], r.cnt, [])
            else
              var end := 2 + Value2(r.inbox[0], r.inbox[1]) + 16;
              && next.inbox == r.inbox[end..] && next.cnt == r.cnt + 1
              && exists nonce :: IsNonce(nonce, r.cnt) &&
                   match aead.open(nonce, r.inbox[2..end], [r.inbox[0], r.inbox[1]])
                   case None => res == DecryptError && next.buf == []
                   case Some(text) => Hands(res, next, text, n)
  {
    if r.buf != [] {
    } else if |r.inbox| < 2 || |r.inbox| < 2 + Value2(r.inbox[0], r.inbox[1]) + 16 {
      LacksFrame(aead, r);
    } else {
      var end := 2 + Value2(r.inbox[0], r.inbox[1]) + 16;
      assert r.inbox == [r.inbox[0], r.inbox[1]] + r.inbox[2..end] + r.inbox[end..];
      TakesFrame(aead, r, r.inbox[0], r.inbox[1], r.inbox[2..end], r.inbox[end..]);
    }
  }
}
