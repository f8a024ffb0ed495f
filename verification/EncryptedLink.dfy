/** Two ends of an encrypted connection and the network between them. */
module EncryptedLink {
  import opened Endian
  import opened EncryptedConn
  import opened Rtp
  import opened Seqs

  // ---------- Frames on the wire ----------

  lemma {:induction false} ChunksFlatten(b: Bytes)
    ensures Flatten(Chunks(b)) == b
    decreases |b|
  {
    if b == [] {
    } else {
      var head, rest := b[..ChunkSize(b)], b[ChunkSize(b)..];
      ChunksFlatten(rest);
      FlattenCons(head, Chunks(rest));
      assert head + rest == b;
    }
  }

  predicate IsPrefix(a: Bytes, b: Bytes) {
    a <= b
  }

  lemma PrefixConcat(a: Bytes, w: Bytes, p: Bytes, q: Bytes)
    ensures IsPrefix(a, w) ==> IsPrefix(a, w + q)
    ensures a == w && IsPrefix(p, q) ==> IsPrefix(a + p, w + q)
  {
  }

  ghost predicate Seals(aead: Aead, cnt: nat, fs: seq<Bytes>, w: Written) {
    && IsPrefix(w.wire, WireOf(aead, cnt, fs))
    && (w.ok ==> w == Written(cnt + |fs|, WireOf(aead, cnt, fs), |Flatten(fs)|, true))
  }

  lemma WireSplit(aead: Aead, cnt: nat, fs: seq<Bytes>, n: nat)
    requires n < |fs|
    ensures WireOf(aead, cnt, fs) ==
            WireOf(aead, cnt, fs[..n]) + Sealed(aead, cnt + n, fs[n]) + WireOf(aead, cnt + n + 1, fs[n + 1..])
  {
    assert fs == fs[..n] + ([fs[n]] + fs[n + 1..]);
    WireConcat(aead, cnt, fs[..n], [fs[n]] + fs[n + 1..]);
    WireCons(aead, cnt + n, fs[n], fs[n + 1..]);
    Assoc(WireOf(aead, cnt, fs[..n]), Sealed(aead, cnt + n, fs[n]), WireOf(aead, cnt + n + 1, fs[n + 1..]));
  }

  /** A Write call that succeeds puts exactly the sealed chunks of its argument on the wire, reports
      its length and uses one nonce per chunk; one that fails leaves a prefix of them there. */
  lemma WriteSealsChunks(aead: Aead, cnt: nat, b: Bytes, accepts: nat)
    ensures Seals(aead, cnt, Chunks(b), WriteCall(aead, cnt, b, accepts))
  {
    var fs := Chunks(b);
    var n := Min(|fs|, accepts / 2);
    if n == |fs| {
      assert fs[..n] == fs;
    } else {
      var sent, sealed, rest := WireOf(aead, cnt, fs[..n]), Sealed(aead, cnt + n, fs[n]), WireOf(aead, cnt + n + 1, fs[n + 1..]);
      WireSplit(aead, cnt, fs, n);
      PrefixConcat(sent, sent, PutLE(|fs[n]|, 2), sealed);
      PrefixConcat(sent, sent, [], sealed);
      PrefixConcat(sent + PutLE(|fs[n]|, 2), sent + sealed, [], rest);
      PrefixConcat(sent, sent + sealed, [], rest);
    }
  }

  /** The inbox of a reader in step with the writer either starts with the whole next frame, which
      opens to its plaintext, or is too short to hold it. */
  lemma NextFrameOpens(aead: Aead, r: Reader, frames: seq<Bytes>)
    requires Lawful(aead) && IsPrefix(r.inbox, WireOf(aead, r.cnt, frames))
    requires frames != [] && 1 <= |frames[0]| <= FRAME_MAX
    ensures var sealed := Sealed(aead, r.cnt, frames[0]);
            TakeFrame(aead, r) == if |r.inbox| < |sealed| then NoFrame
                                  else Frame(Some(frames[0]), r.inbox[|sealed|..])
  {
    var text := frames[0];
    var length := PutLE(|text|, 2);
    var body := aead.seal(Nonce(r.cnt), text, length);
    var wire := WireOf(aead, r.cnt, frames);
    assert wire == length + body + WireOf(aead, r.cnt + 1, frames[1..]);
    if |r.inbox| >= 2 {
      assert r.inbox[..2] == wire[..2] == length;
      LittleEndianRoundTrip(|text|, 2);
      var end := 2 + |body|;
      if |r.inbox| >= end {
        assert r.inbox[2..end] == wire[2..end] == body;
      }
    }
  }

  // ---------- The link ----------

  /** `flight` is on its way to the reader. `broken`: a Write failed, and so does every later one.
      `cut`: the network has dropped part of the flight and carries nothing more.
      The history: every byte passed to Write, every frame it was cut into, how many frames were
      opened, every byte Read has returned, and whether some Read failed to decrypt. */
  datatype Link = Link(
    wcnt: nat, reader: Reader, flight: Bytes, broken: bool, cut: bool,
    written: Bytes, frames: seq<Bytes>, taken: nat, read: Bytes, undecryptable: bool)

  const Init := Link(0, Reader([], 0, []), [], false, false, [], [], 0, [], false)

  datatype Event =
    | DoWrite(data: Bytes, accepts: nat)
    | Arrive(n: nat)
    | Lose(keep: nat)
    | DoRead(n: nat)

  /** A Write call that cuts `data` into the frames `more`. */
  function AfterSending(l: Link, data: Bytes, more: seq<Bytes>, w: Written): Link {
    l.(wcnt := w.cnt, flight := if l.cut then l.flight else l.flight + w.wire, broken := !w.ok,
       written := l.written + data, frames := l.frames + more)
  }

  function AfterWrite(aead: Aead, l: Link, data: Bytes, accepts: nat): Link {
    if l.broken then l else AfterSending(l, data, Chunks(data), WriteCall(aead, l.wcnt, data, accepts))
  }

  /** A Read waits for its frame unless the stream has ended. */
  function AfterRead(aead: Aead, l: Link, n: nat): Link {
    var (r, res) := ReadCall(aead, l.reader, n);
    if res.Eof? && (l.flight != [] || !(l.cut || l.broken)) then l
    else
      l.(reader := r,
         taken := l.taken + (if r.cnt == l.reader.cnt then 0 else 1),
         read := if res.Data? then l.read + res.bytes else l.read,
         undecryptable := l.undecryptable || res.DecryptError?)
  }

  function Apply(aead: Aead, l: Link, e: Event): Link {
    match e
    case DoWrite(data, accepts) => AfterWrite(aead, l, data, accepts)
    case Arrive(n) =>
      var k := Min(n, |l.flight|);
      l.(reader := l.reader.(inbox := l.reader.inbox + l.flight[..k]), flight := l.flight[k..])
    case Lose(keep) => l.(flight := l.flight[..Min(keep, |l.flight|)], cut := true)
    case DoRead(n) => AfterRead(aead, l, n)
  }

  function RunFrom(aead: Aead, l: Link, evs: seq<Event>): Link {
    if evs == [] then l else Apply(aead, RunFrom(aead, l, evs[..|evs| - 1]), evs[|evs| - 1])
  }

  /** Frames sent and not yet opened. */
  function Unopened(l: Link): seq<Bytes>
    requires l.taken <= |l.frames|
  {
    l.frames[l.taken..]
  }

  ghost predicate Sane(l: Link) {
    && l.taken <= |l.frames|
    && Sized(l.frames)
    && l.reader.cnt == l.taken
    && (!l.broken ==> l.wcnt == |l.frames|)
    && !l.undecryptable
  }

  /** What is still to be read, byte for byte. */
  ghost predicate Balanced(l: Link)
    requires l.taken <= |l.frames|
  {
    l.read + l.reader.buf + Flatten(Unopened(l)) == l.written
  }

  /** The bytes under way are the sealed unopened frames, or the beginning of them. */
  ghost predicate InStep(aead: Aead, l: Link)
    requires l.taken <= |l.frames|
  {
    var wire := WireOf(aead, l.reader.cnt, Unopened(l));
    && IsPrefix(l.reader.inbox + l.flight, wire)
    && (!l.broken && !l.cut ==> l.reader.inbox + l.flight == wire)
  }

  ghost predicate Inv(aead: Aead, l: Link) {
    Sane(l) && Balanced(l) && InStep(aead, l)
  }

  /** Moving the front x of what is to be read behind what was read. */
  lemma Shift(read: Bytes, x: Bytes, y: Bytes, rest: Bytes)
    ensures (read + x) + y + rest == read + (x + y) + rest
    ensures read + [] + (x + rest) == read + x + rest
  {
  }

  lemma UnopenedGrows(l: Link, data: Bytes, more: seq<Bytes>, w: Written)
    requires l.taken <= |l.frames|
    ensures Unopened(AfterSending(l, data, more, w)) == Unopened(l) + more
  {
  }

  lemma SendingBalanced(l: Link, more: seq<Bytes>, w: Written)
    requires l.taken <= |l.frames| && Balanced(l)
    ensures Balanced(AfterSending(l, Flatten(more), more, w))
  {
    UnopenedGrows(l, Flatten(more), more, w);
    FlattenConcat(Unopened(l), more);
    Assoc(l.read + l.reader.buf, Flatten(Unopened(l)), Flatten(more));
  }

  lemma FlightGrows(inbox: Bytes, flight: Bytes, sent: Bytes, wire: Bytes, more: Bytes)
    requires IsPrefix(inbox + flight, sent) && IsPrefix(wire, more)
    ensures IsPrefix(inbox + flight, sent + more)
    ensures inbox + flight == sent ==> IsPrefix(inbox + (flight + wire), sent + more)
    ensures inbox + flight == sent && wire == more ==> inbox + (flight + wire) == sent + more
  {
    PrefixConcat(inbox + flight, sent, wire, more);
    Assoc(inbox, flight, wire);
  }

  lemma WireGrows(aead: Aead, l: Link, data: Bytes, more: seq<Bytes>, w: Written)
    requires Sane(l) && !l.broken
    ensures WireOf(aead, l.reader.cnt, Unopened(AfterSending(l, data, more, w))) ==
            WireOf(aead, l.reader.cnt, Unopened(l)) + WireOf(aead, l.wcnt, more)
  {
    UnopenedGrows(l, data, more, w);
    WireConcat(aead, l.reader.cnt, Unopened(l), more);
  }

  lemma SendingInStep(aead: Aead, l: Link, data: Bytes, more: seq<Bytes>, w: Written)
    requires Sane(l) && InStep(aead, l) && !l.broken && Seals(aead, l.wcnt, more, w)
    ensures InStep(aead, AfterSending(l, data, more, w))
  {
    WireGrows(aead, l, data, more, w);
    FlightGrows(l.reader.inbox, l.flight, WireOf(aead, l.reader.cnt, Unopened(l)), w.wire, WireOf(aead, l.wcnt, more));
  }

  lemma SendingSane(aead: Aead, l: Link, data: Bytes, more: seq<Bytes>, w: Written)
    requires Sane(l) && !l.broken && Seals(aead, l.wcnt, more, w)
    requires Sized(more)
    ensures Sane(AfterSending(l, data, more, w))
  {
  }

  lemma WriteInv(aead: Aead, l: Link, data: Bytes, accepts: nat)
    requires Inv(aead, l) && !l.broken
    ensures Inv(aead, AfterWrite(aead, l, data, accepts))
  {
    var more, w := Chunks(data), WriteCall(aead, l.wcnt, data, accepts);
    WriteSealsChunks(aead, l.wcnt, data, accepts);
    ChunksSized(data);
    ChunksFlatten(data);
    SendingSane(aead, l, data, more, w);
    SendingBalanced(l, more, w);
    SendingInStep(aead, l, data, more, w);
  }

  lemma ReadBuffered(aead: Aead, l: Link, n: nat)
    requires Inv(aead, l) && l.reader.buf != []
    ensures Inv(aead, AfterRead(aead, l, n))
  {
    var l', k := AfterRead(aead, l, n), Min(n, |l.reader.buf|);
    assert Balanced(l') by {
      Shift(l.read, l.reader.buf[..k], l.reader.buf[k..], Flatten(Unopened(l)));
      assert l.reader.buf[..k] + l.reader.buf[k..] == l.reader.buf;
    }
  }

  /** The next frame f is opened into a buffer of n bytes. */
  function Opening(l: Link, f: Bytes, rest: Bytes, n: nat): Link {
    var k := Min(n, |f|);
    l.(reader := Reader(rest, l.reader.cnt + 1, f[k..]), taken := l.taken + 1, read := l.read + f[..k])
  }

  lemma OpeningBalanced(l: Link, rest: Bytes, n: nat)
    requires l.taken < |l.frames| && Balanced(l) && l.reader.buf == []
    ensures Balanced(Opening(l, Unopened(l)[0], rest, n))
  {
    var f, fs := Unopened(l)[0], Unopened(l)[1..];
    assert Unopened(l) == [f] + fs;
    FlattenCons(f, fs);
    var k := Min(n, |f|);
    assert f[..k] + f[k..] == f;
    Shift(l.read, f, [], Flatten(fs));
    Shift(l.read, f[..k], f[k..], Flatten(fs));
    assert Unopened(Opening(l, f, rest, n)) == fs;
  }

  lemma OpeningInStep(aead: Aead, l: Link, n: nat)
    requires l.taken < |l.frames| && InStep(aead, l)
    requires |Sealed(aead, l.reader.cnt, Unopened(l)[0])| <= |l.reader.inbox|
    ensures var f := Unopened(l)[0];
            InStep(aead, Opening(l, f, l.reader.inbox[|Sealed(aead, l.reader.cnt, f)|..], n))
  {
    var f, fs := Unopened(l)[0], Unopened(l)[1..];
    var sealed := Sealed(aead, l.reader.cnt, f);
    var l' := Opening(l, f, l.reader.inbox[|sealed|..], n);
    assert Unopened(l) == [f] + fs && Unopened(l') == fs;
    WireCons(aead, l.reader.cnt, f, fs);
    DropFront(l.reader.inbox, l.flight, sealed, WireOf(aead, l'.reader.cnt, fs));
  }

  lemma DropFront(inbox: Bytes, flight: Bytes, front: Bytes, rest: Bytes)
    requires IsPrefix(inbox + flight, front + rest) && |front| <= |inbox|
    ensures IsPrefix(inbox[|front|..] + flight, rest)
    ensures inbox + flight == front + rest ==> inbox[|front|..] + flight == rest
  {
    var under, wire := inbox + flight, front + rest;
    assert under[|front|..] == inbox[|front|..] + flight;
    assert wire[|front|..] == rest;
    assert under == wire[..|under|];
  }

  lemma OpeningInv(aead: Aead, l: Link, n: nat)
    requires Inv(aead, l) && l.taken < |l.frames| && l.reader.buf == []
    requires |Sealed(aead, l.reader.cnt, Unopened(l)[0])| <= |l.reader.inbox|
    ensures var f := Unopened(l)[0];
            Inv(aead, Opening(l, f, l.reader.inbox[|Sealed(aead, l.reader.cnt, f)|..], n))
  {
    OpeningBalanced(l, l.reader.inbox[|Sealed(aead, l.reader.cnt, Unopened(l)[0])|..], n);
    OpeningInStep(aead, l, n);
  }

  lemma ReadFrame(aead: Aead, l: Link, n: nat)
    requires Lawful(aead) && Inv(aead, l) && l.reader.buf == []
    ensures Inv(aead, AfterRead(aead, l, n))
  {
    var fs := Unopened(l);
    if fs == [] {
      assert l.reader.inbox == [];
    } else {
      assert fs[0] == l.frames[l.taken];
      assert IsPrefix(l.reader.inbox, WireOf(aead, l.reader.cnt, fs)) by {
        PrefixOfConcat(l.reader.inbox, l.flight, WireOf(aead, l.reader.cnt, fs));
      }
      NextFrameOpens(aead, l.reader, fs);
      var sealed := Sealed(aead, l.reader.cnt, fs[0]);
      if |l.reader.inbox| >= |sealed| {
        assert AfterRead(aead, l, n) == Opening(l, fs[0], l.reader.inbox[|sealed|..], n);
        OpeningInv(aead, l, n);
      }
    }
  }

  lemma PrefixOfConcat(a: Bytes, b: Bytes, w: Bytes)
    requires IsPrefix(a + b, w)
    ensures IsPrefix(a, w)
  {
  }

  lemma ArriveInStep(aead: Aead, l: Link, n: nat)
    requires l.taken <= |l.frames| && InStep(aead, l)
    ensures InStep(aead, Apply(aead, l, Arrive(n)))
  {
    var k := Min(n, |l.flight|);
    assert l.reader.inbox + l.flight[..k] + l.flight[k..] == l.reader.inbox + l.flight;
  }

  lemma LoseInStep(aead: Aead, l: Link, keep: nat)
    requires l.taken <= |l.frames| && InStep(aead, l)
    ensures InStep(aead, Apply(aead, l, Lose(keep)))
  {
    var k := Min(keep, |l.flight|);
    assert l.reader.inbox + l.flight == (l.reader.inbox + l.flight[..k]) + l.flight[k..];
    PrefixOfConcat(l.reader.inbox + l.flight[..k], l.flight[k..], WireOf(aead, l.reader.cnt, Unopened(l)));
  }

  lemma StepInv(aead: Aead, l: Link, e: Event)
    requires Lawful(aead) && Inv(aead, l)
    ensures Inv(aead, Apply(aead, l, e))
  {
    match e {
      case DoWrite(data, accepts) =>
        if !l.broken { WriteInv(aead, l, data, accepts); }
      case Arrive(n) =>
        ArriveInStep(aead, l, n);
      case Lose(keep) =>
        LoseInStep(aead, l, keep);
      case DoRead(n) =>
        if l.reader.buf != [] { ReadBuffered(aead, l, n); } else { ReadFrame(aead, l, n); }
    }
  }

  lemma {:induction false} InvAlways(aead: Aead, evs: seq<Event>)
    requires Lawful(aead)
    ensures Inv(aead, RunFrom(aead, Init, evs))
  {
    if evs == [] {
    } else {
      InvAlways(aead, evs[..|evs| - 1]);
      StepInv(aead, RunFrom(aead, Init, evs[..|evs| - 1]), evs[|evs| - 1]);
    }
  }

  /** What an observer of both ends sees. */
  ghost predicate Faithful(l: Link) {
    && IsPrefix(l.read, l.written)
    && !l.undecryptable
    && l.taken <= |l.frames|
    && (!l.broken ==> l.wcnt == l.reader.cnt + (|l.frames| - l.taken))
    && Sized(l.frames)
  }

  lemma InvIsFaithful(aead: Aead, l: Link)
    requires Inv(aead, l)
    ensures Faithful(l)
  {
    PrefixOfConcat(l.read, l.reader.buf, l.read + l.reader.buf);
    PrefixConcat(l.read, l.read + l.reader.buf, [], Flatten(Unopened(l)));
  }

  /** Over any run of Write calls (failing or not), arrivals in pieces, losses of the tail, and Read
      calls with any buffer sizes: what was read is a prefix of what was written, byte for byte; no
      frame fails to decrypt; the writer's counter is the reader's plus the unopened frames; every
      frame holds 1 to 1024 bytes. */
  lemma StreamRefinement(aead: Aead, evs: seq<Event>)
    requires Lawful(aead)
    ensures Faithful(RunFrom(aead, Init, evs))
  {
    InvAlways(aead, evs);
    InvIsFaithful(aead, RunFrom(aead, Init, evs));
  }

  /** Nothing is held back: once every byte has arrived, a Read into a non-empty buffer returns at
      least one byte unless everything written has been read. */
  lemma ReadMakesProgress(aead: Aead, evs: seq<Event>, n: nat)
    requires Lawful(aead) && n > 0
    requires var l := RunFrom(aead, Init, evs); !l.broken && !l.cut && l.flight == []
    ensures var l := RunFrom(aead, Init, evs);
            |AfterRead(aead, l, n).read| > |l.read| || l.read == l.written
  {
    InvAlways(aead, evs);
    var l := RunFrom(aead, Init, evs);
    var fs := Unopened(l);
    if l.reader.buf == [] && fs != [] {
      assert fs[0] == l.frames[l.taken];
      NextFrameOpens(aead, l.reader, fs);
    }
  }

  /** The nonces of frames i and j agree if and only if their numbers do modulo 2^64: within any
      2^64 consecutive frames none is used twice. */
  lemma NonceRepeatsIff(i: nat, j: nat)
    ensures Nonce(i) == Nonce(j) <==> i % COUNTER_MOD == j % COUNTER_MOD
    ensures i < j < i + COUNTER_MOD ==> Nonce(i) != Nonce(j)
  {
    var a, b := i % COUNTER_MOD, j % COUNTER_MOD;
    assert Nonce(i)[4..] == PutLE(a, 8) && Nonce(j)[4..] == PutLE(b, 8);
    WidthOfCounter();
    LittleEndianRoundTrip(a, 8);
    LittleEndianRoundTrip(b, 8);
  }

  lemma WidthOfCounter()
    ensures Pow256(8) == COUNTER_MOD
  {
    assert Pow256(2) == 0x1_0000;
    assert Pow256(4) == 0x1_0000_0000;
    assert Pow256(6) == 0x1_0000_0000_0000;
  }
}
