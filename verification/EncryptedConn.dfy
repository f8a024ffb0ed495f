/** The framed, sealed HAP connection: up to 1024 bytes of plaintext per frame, a two-byte
    little-endian length as associated data, and a 64-bit frame counter as nonce. The cipher is
    abstract: only its inverse law and its 16-byte length law are used. */
module EncryptedConn {
  import opened Endian
  import opened Rtp
  import opened Seqs

  const FRAME_MAX := 1024
  const TAG_SIZE := 16
  const COUNTER_MOD := 0x1_0000_0000_0000_0000

  type U64 = n: nat | n < COUNTER_MOD

  /** AEAD with one key: arguments are nonce, text and associated data. */
  datatype Aead = Aead(seal: (Bytes, Bytes, Bytes) -> Bytes, open: (Bytes, Bytes, Bytes) -> Option<Bytes>)

  ghost predicate Lawful(aead: Aead) {
    forall nonce, text, aad ::
      var sealed := aead.seal(nonce, text, aad);
      |sealed| == |text| + TAG_SIZE && aead.open(nonce, sealed, aad) == Some(text)
  }

  /** The laws can be met: a cipher that only appends a tag satisfies them. */
  lemma LawsAreSatisfiable()
    ensures exists aead :: Lawful(aead)
  {
    var tag: Bytes := seq(TAG_SIZE, _ => 0);
    var aead := Aead((nonce: Bytes, text: Bytes, aad: Bytes) => text + tag,
                     (nonce: Bytes, sealed: Bytes, aad: Bytes) =>
                       if |sealed| < TAG_SIZE then None else Some(sealed[..|sealed| - TAG_SIZE]));
    assert Lawful(aead);
  }

  function Min(a: nat, b: nat): nat {
    if a < b then a else b
  }

  // ---------- Nonces and frames ----------

  /** The nonce of the n-th frame: four zero bytes and the 64-bit counter, which wraps. */
  function Nonce(n: nat): (nonce: Bytes)
    ensures |nonce| == 12
  {
    [0, 0, 0, 0] + PutLE(n % COUNTER_MOD, 8)
  }

  function Next(cnt: U64): U64 {
    if cnt + 1 == COUNTER_MOD then 0 else cnt + 1
  }

  lemma NextWraps(cnt: U64, n: nat)
    requires cnt == n % COUNTER_MOD
    ensures Next(cnt) == (n + 1) % COUNTER_MOD
    ensures Nonce(cnt) == Nonce(n)
  {
  }

  function ChunkSize(b: Bytes): nat {
    if |b| > FRAME_MAX then FRAME_MAX else |b|
  }

  function Chunks(b: Bytes): seq<Bytes> {
    if b == [] then [] else [b[..ChunkSize(b)]] + Chunks(b[ChunkSize(b)..])
  }

  predicate Sized(fs: seq<Bytes>) {
    forall i :: 0 <= i < |fs| ==> 1 <= |fs[i]| <= FRAME_MAX
  }

  lemma {:induction false} ChunksSized(b: Bytes)
    ensures Sized(Chunks(b))
  {
    if b == [] {
    } else {
      ChunksSized(b[ChunkSize(b)..]);
    }
  }

  function Sealed(aead: Aead, cnt: nat, text: Bytes): Bytes {
    var length := PutLE(|text|, 2);
    length + aead.seal(Nonce(cnt), text, length)
  }

  function WireOf(aead: Aead, cnt: nat, frames: seq<Bytes>): Bytes
    decreases |frames|
  {
    if frames == [] then [] else Sealed(aead, cnt, frames[0]) + WireOf(aead, cnt + 1, frames[1..])
  }

  lemma WireCons(aead: Aead, cnt: nat, f: Bytes, fs: seq<Bytes>)
    ensures WireOf(aead, cnt, [f] + fs) == Sealed(aead, cnt, f) + WireOf(aead, cnt + 1, fs)
  {
    assert ([f] + fs)[1..] == fs;
  }

  lemma {:induction false} WireConcat(aead: Aead, cnt: nat, a: seq<Bytes>, b: seq<Bytes>)
    ensures WireOf(aead, cnt, a + b) == WireOf(aead, cnt, a) + WireOf(aead, cnt + |a|, b)
    decreases |a|
  {
    if a == [] {
      assert a + b == b;
    } else {
      assert a + b == [a[0]] + (a[1..] + b) && a == [a[0]] + a[1..];
      WireCons(aead, cnt, a[0], a[1..] + b);
      WireConcat(aead, cnt + 1, a[1..], b);
      Assoc(Sealed(aead, cnt, a[0]), WireOf(aead, cnt + 1, a[1..]), WireOf(aead, cnt + |a|, b));
    }
  }

  lemma WireSnoc(aead: Aead, cnt: nat, fs: seq<Bytes>, f: Bytes)
    ensures WireOf(aead, cnt, fs + [f]) == WireOf(aead, cnt, fs) + Sealed(aead, cnt + |fs|, f)
  {
    WireConcat(aead, cnt, fs, [f]);
    WireCons(aead, cnt + |fs|, f, []);
    assert [f] + [] == [f];
  }

  // ---------- Write ----------

  datatype Written = Written(cnt: nat, wire: Bytes, total: nat, ok: bool)

  /** One Write call; the transport takes `accepts` more operations: two per frame and a flush. The
      frames that fit go out whole; a frame of which only the length fits still uses up a nonce. */
  function WriteCall(aead: Aead, cnt: nat, b: Bytes, accepts: nat): Written {
    var fs := Chunks(b);
    var n := Min(|fs|, accepts / 2);
    var partial := n < |fs| && accepts % 2 == 1;
    Written(
      cnt + if partial then n + 1 else n,
      WireOf(aead, cnt, fs[..n]) + if partial then PutLE(|fs[n]|, 2) else [],
      |Flatten(fs[..n])|,
      accepts > 2 * |fs|)
  }

  /** Where Write stands after the frames `done`: `out` went to the transport, `b` is left. */
  ghost predicate Sending(aead: Aead, cnt: nat, data: Bytes, done: seq<Bytes>, b: Bytes, now: U64, out: Bytes, total: nat) {
    && done + Chunks(b) == Chunks(data)
    && now == (cnt + |done|) % COUNTER_MOD
    && out == WireOf(aead, cnt, done)
    && total == |Flatten(done)|
  }

  lemma SendingOn(aead: Aead, cnt: nat, data: Bytes, done: seq<Bytes>, b: Bytes, now: U64, out: Bytes, total: nat)
    requires Sending(aead, cnt, data, done, b, now, out, total) && b != []
    ensures var f := b[..ChunkSize(b)];
            Sending(aead, cnt, data, done + [f], b[ChunkSize(b)..], Next(now), out + Sealed(aead, now, f), total + |f|)
  {
    var f := b[..ChunkSize(b)];
    NextWraps(now, cnt + |done|);
    WireSnoc(aead, cnt, done, f);
    FlattenSnoc(done, f);
    assert done + [f] + Chunks(b[ChunkSize(b)..]) == done + Chunks(b);
  }

  lemma SendingStops(aead: Aead, cnt: nat, data: Bytes, done: seq<Bytes>, b: Bytes, now: U64, out: Bytes, total: nat, accepts: nat)
    requires Sending(aead, cnt, data, done, b, now, out, total) && b != []
    requires 2 * |done| <= accepts < 2 * |done| + 2
    ensures var w := WriteCall(aead, cnt, data, accepts);
            if accepts == 2 * |done| then w.cnt % COUNTER_MOD == now && w == Written(w.cnt, out, total, false)
            else w.cnt % COUNTER_MOD == Next(now) && w == Written(w.cnt, out + PutLE(ChunkSize(b), 2), total, false)
  {
    var fs, n := Chunks(data), |done|;
    NextWraps(now, cnt + n);
    assert accepts / 2 == n && accepts % 2 == accepts - 2 * n;
    assert fs[..n] == done && fs[n] == Chunks(b)[0];
  }

  lemma SendingEnds(aead: Aead, cnt: nat, data: Bytes, done: seq<Bytes>, now: U64, out: Bytes, total: nat, accepts: nat)
    requires Sending(aead, cnt, data, done, [], now, out, total) && 2 * |done| <= accepts
    ensures var w := WriteCall(aead, cnt, data, accepts);
            w.cnt % COUNTER_MOD == now && w == Written(w.cnt, out, total, accepts > 2 * |done|)
  {
    var fs := Chunks(data);
    assert done + [] == done;
    assert accepts / 2 >= |fs| && fs[..|fs|] == fs;
  }

  // ---------- Read ----------

  datatype Reader = Reader(inbox: Bytes, cnt: nat, buf: Bytes)

  datatype Taken = NoFrame | Frame(text: Option<Bytes>, rest: Bytes)

  /** The next whole frame of the inbox; a text of None failed to open. */
  function TakeFrame(aead: Aead, r: Reader): Taken {
    if |r.inbox| < 2 then NoFrame
    else
      var end := 2 + GetLE(r.inbox[..2]) + TAG_SIZE;
      if |r.inbox| < end then NoFrame
      else Frame(aead.open(Nonce(r.cnt), r.inbox[2..end], r.inbox[..2]), r.inbox[end..])
  }

  datatype ReadResult = Data(bytes: Bytes) | Eof | DecryptError

  /** One Read call into a buffer of n bytes. A missing frame is the end of the stream: the bytes
      short of it are consumed. */
  function ReadCall(aead: Aead, r: Reader, n: nat): (Reader, ReadResult) {
    if r.buf != [] then
      var k := Min(n, |r.buf|);
      (r.(buf := r.buf[k..]), Data(r.buf[..k]))
    else
      match TakeFrame(aead, r)
      case NoFrame => (r.(inbox := []), Eof)
      case Frame(None, rest) => (Reader(rest, r.cnt + 1, []), DecryptError)
      case Frame(Some(text), rest) =>
        var k := Min(n, |text|);
        (Reader(rest, r.cnt + 1, text[k..]), Data(text[..k]))
  }

  // ---------- Only the counter modulo 2^64 matters ----------

  lemma {:induction false} WireCongruent(aead: Aead, m: nat, n: nat, fs: seq<Bytes>)
    requires m % COUNTER_MOD == n % COUNTER_MOD
    ensures WireOf(aead, m, fs) == WireOf(aead, n, fs)
    decreases |fs|
  {
    if fs == [] {
    } else {
      NextWraps(m % COUNTER_MOD, m);
      NextWraps(n % COUNTER_MOD, n);
      WireCongruent(aead, m + 1, n + 1, fs[1..]);
    }
  }

  /** A writer whose 64-bit counter has wrapped sends the same bytes as one that counts without bound. */
  lemma WriteMayWrap(aead: Aead, cnt: nat, b: Bytes, accepts: nat)
    ensures var w, w' := WriteCall(aead, cnt, b, accepts), WriteCall(aead, cnt % COUNTER_MOD, b, accepts);
            w'.wire == w.wire && w'.total == w.total && w'.ok == w.ok && w'.cnt % COUNTER_MOD == w.cnt % COUNTER_MOD
  {
    var fs := Chunks(b);
    var n := Min(|fs|, accepts / 2);
    WireCongruent(aead, cnt, cnt % COUNTER_MOD, fs[..n]);
    AddWraps(cnt, n);
    AddWraps(cnt, n + 1);
  }

  lemma AddWraps(a: nat, k: nat)
    ensures (a % COUNTER_MOD + k) % COUNTER_MOD == (a + k) % COUNTER_MOD
  {
  }

  lemma TakeCongruent(aead: Aead, r: Reader)
    ensures TakeFrame(aead, r.(cnt := r.cnt % COUNTER_MOD)) == TakeFrame(aead, r)
  {
    NextWraps(r.cnt % COUNTER_MOD, r.cnt);
  }

  /** Likewise for a reader. */
  lemma ReadMayWrap(aead: Aead, r: Reader, n: nat)
    ensures var (r1, res1) := ReadCall(aead, r, n);
            var (r2, res2) := ReadCall(aead, r.(cnt := r.cnt % COUNTER_MOD), n);
            res1 == res2 && r2.inbox == r1.inbox && r2.buf == r1.buf && r2.cnt % COUNTER_MOD == r1.cnt % COUNTER_MOD
  {
    TakeCongruent(aead, r);
  }

  // ---------- The connection in place ----------

  class Conn {
    const aead: Aead
    var encryptCnt: U64
    var decryptCnt: U64
    var readBuf: Bytes
    var outbox: Bytes  // what the transport took
    var inbox: Bytes   // what the transport will still give

    ghost function ReaderOf(): Reader
      reads this
    {
      Reader(inbox, decryptCnt, readBuf)
    }

    constructor (aead: Aead)
      ensures this.aead == aead && encryptCnt == 0 && outbox == [] && ReaderOf() == Reader([], 0, [])
    {
      this.aead := aead;
      encryptCnt, decryptCnt, readBuf, outbox, inbox := 0, 0, [], [], [];
    }

    /** One pass of Write's loop. */
    method SendFrame(text: Bytes, accepts: nat) returns (ok: bool)
      requires 1 <= |text| <= FRAME_MAX
      modifies this`encryptCnt, this`outbox
      ensures ok <==> accepts >= 2
      ensures encryptCnt == if accepts == 0 then old(encryptCnt) else Next(old(encryptCnt))
      ensures outbox == old(outbox) + if accepts == 0 then [] else if accepts == 1 then PutLE(|text|, 2)
                                      else Sealed(aead, old(encryptCnt), text)
    {
      var length := PutLE(|text|, 2);
      if accepts == 0 {
        return false;
      }
      outbox := outbox + length;
      var nonce := Nonce(encryptCnt);
      encryptCnt := Next(encryptCnt);
      var ciphertext := aead.seal(nonce, text, length);
      if accepts == 1 {
        return false;
      }
      outbox := outbox + ciphertext;
      return true;
    }

    method Write(data: Bytes, accepts: nat) returns (total: nat, ok: bool)
      modifies this`encryptCnt, this`outbox
      ensures var w := WriteCall(aead, old(encryptCnt), data, accepts);
              encryptCnt == w.cnt % COUNTER_MOD && outbox == old(outbox) + w.wire && total == w.total && ok == w.ok
    {
      var b, left := data, accepts;
      total := 0;
      ghost var cnt, done, out: Bytes := encryptCnt, [], [];
      while |b| > 0
        invariant Sending(aead, cnt, data, done, b, encryptCnt, out, total)
        invariant outbox == old(outbox) + out
        invariant left == accepts - 2 * |done| && left >= 0
        decreases |b|
      {
        var size := |b|;
        if size > FRAME_MAX {
          size := FRAME_MAX;
        }
        SendingOn(aead, cnt, data, done, b, encryptCnt, out, total);
        if left < 2 {
          SendingStops(aead, cnt, data, done, b, encryptCnt, out, total, accepts);
        }
        ghost var f, now := b[..size], encryptCnt;
        var sent := SendFrame(b[..size], left);
        if !sent {
          Assoc(old(outbox), out, PutLE(size, 2));
          return total, false;
        }
        Assoc(old(outbox), out, Sealed(aead, now, f));
        done, out := done + [f], out + Sealed(aead, now, f);
        left := left - 2;
        b := b[size..];
        total := total + size;
      }
      SendingEnds(aead, cnt, data, done, encryptCnt, out, total, accepts);
      ok := left > 0;
    }

    method CopyInto(b: array<Byte>, src: Bytes) returns (n: nat)
      modifies b
      ensures n == Min(b.Length, |src|)
      ensures b[..n] == src[..n] && b[n..] == old(b[n..])
    {
      n := Min(b.Length, |src|);
      for i := 0 to n
        invariant b[..i] == src[..i] && b[i..] == old(b[i..])
      {
        b[i] := src[i];
      }
    }

    method Read(b: array<Byte>) returns (r: ReadResult)
      modifies b, this`inbox, this`decryptCnt, this`readBuf
      ensures var (next, res) := ReadCall(aead, old(ReaderOf()), b.Length);
              ReaderOf() == next.(cnt := next.cnt % COUNTER_MOD) && r == res
      ensures r.Data? ==> b[..|r.bytes|] == r.bytes && b[|r.bytes|..] == old(b[..])[|r.bytes|..]
      ensures !r.Data? ==> b[..] == old(b[..])
    {
      if |readBuf| > 0 {
        var n := CopyInto(b, readBuf);
        r := Data(readBuf[..n]);
        readBuf := readBuf[n..];
        return;
      }
      if |inbox| < 2 {
        inbox := [];
        return Eof;
      }
      var length := inbox[..2];
      var end := 2 + GetLE(length) + TAG_SIZE;
      if |inbox| < end {
        inbox := [];
        return Eof;
      }
      var ciphertext := inbox[2..end];
      inbox := inbox[end..];
      var nonce := Nonce(decryptCnt);
      decryptCnt := Next(decryptCnt);
      var text := aead.open(nonce, ciphertext, length);
      if text.None? {
        return DecryptError;
      }
      var n := CopyInto(b, text.value);
      readBuf := text.value[n..];
      r := Data(text.value[..n]);
    }
  }
}
