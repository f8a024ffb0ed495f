/** H.264 payloads (RFC 6184) and the Annex-B byte stream the snapshot decoder is fed. */
module AnnexB {
  import opened Rtp
  import opened Seqs

  const StartCode: Bytes := [0, 0, 0, 1]

  /** Each NALU behind one start code. */
  function ByteStream(nals: seq<Bytes>): Bytes {
    if nals == [] then [] else ByteStream(nals[..|nals| - 1]) + StartCode + nals[|nals| - 1]
  }

  lemma ByteStreamSnoc(nals: seq<Bytes>, n: Bytes)
    ensures ByteStream(nals + [n]) == ByteStream(nals) + StartCode + n
  {
    assert (nals + [n])[..|nals|] == nals;
  }

  function BE16(hi: Byte, lo: Byte): nat {
    hi * 256 + lo
  }

  // ---------- Taking payloads apart ----------

  /** The aggregated NALUs of a STAP-A body; a zero or oversized entry ends the walk. */
  function Walk(body: Bytes): seq<Bytes> {
    if |body| < 2 then []
    else
      var size := BE16(body[0], body[1]);
      if size == 0 || size > |body| - 2 then []
      else [body[2..2 + size]] + Walk(body[2 + size..])
  }

  /** NALUs recovered so far, and the fragments collected of the current one. */
  datatype Depack = Depack(nals: seq<Bytes>, fu: Bytes)

  function Collected(d: Depack, p: Bytes): Bytes
    requires |p| >= 2
  {
    (if p[1] >= 128 then [p[0] - NalType(p[0]) + NalType(p[1])] else d.fu) + p[2..]
  }

  function Take(d: Depack, p: Bytes): Depack {
    if p == [] then d
    else
      var t := NalType(p[0]);
      if 1 <= t <= 23 then d.(nals := d.nals + [p])
      else if t == STAP_A then d.(nals := d.nals + Walk(p[1..]))
      else if t == FU_A && |p| >= 2 then
        var fu := Collected(d, p);
        if p[1] / 64 % 2 == 1 && fu != [] then Depack(d.nals + [fu], []) else d.(fu := fu)
      else d
  }

  function TakeAll(d: Depack, ps: seq<Bytes>): Depack {
    if ps == [] then d else Take(TakeAll(d, ps[..|ps| - 1]), ps[|ps| - 1])
  }

  function ParamSets(sps: Bytes, pps: Bytes): seq<Bytes> {
    (if sps != [] then [sps] else []) + (if pps != [] then [pps] else [])
  }

  // ---------- The loops of the source ----------

  method AppendStapA(out: Bytes, ghost nals: seq<Bytes>, payload: Bytes) returns (r: Bytes)
    requires out == ByteStream(nals)
    ensures r == ByteStream(nals + Walk(payload))
  {
    r := out;
    var rest := payload;
    ghost var done := nals;
    while |rest| >= 2
      invariant done + Walk(rest) == nals + Walk(payload)
      invariant r == ByteStream(done)
      decreases |rest|
    {
      var size := BE16(rest[0], rest[1]);
      ghost var body := rest;
      rest := rest[2..];
      if size <= 0 || size > |rest| {
        assert Walk(body) == [] && done + [] == done;
        return;
      }
      assert body[2..2 + size] == rest[..size] && body[2 + size..] == rest[size..];
      ByteStreamSnoc(done, rest[..size]);
      Assoc(done, [rest[..size]], Walk(rest[size..]));
      done := done + [rest[..size]];
      r := r + StartCode + rest[..size];
      rest := rest[size..];
    }
    assert done + [] == done;
  }

  /** One packet of the loop of BuildIDRAnnexB. */
  method AppendPacket(out: Bytes, fuPayload: Bytes, ghost d: Depack, p: Bytes) returns (r: Bytes, fu: Bytes)
    requires out == ByteStream(d.nals) && fuPayload == d.fu
    ensures r == ByteStream(Take(d, p).nals) && fu == Take(d, p).fu
  {
    r, fu := out, fuPayload;
    if |p| == 0 {
      return;
    }
    var naluType := NalType(p[0]);
    if 1 <= naluType <= 23 {
      ByteStreamSnoc(d.nals, p);
      r := r + StartCode + p;
    } else if naluType == STAP_A {
      r := AppendStapA(r, d.nals, p[1..]);
    } else if naluType == FU_A {
      if |p| < 2 {
        return;
      }
      if p[1] >= 128 {
        fu := [p[0] - NalType(p[0]) + NalType(p[1])];
      }
      fu := fu + p[2..];
      if p[1] / 64 % 2 == 1 && |fu| > 0 {
        ByteStreamSnoc(d.nals, fu);
        r := r + StartCode + fu;
        fu := [];
      }
    }
  }

  method AppendParamSet(out: Bytes, ghost nals: seq<Bytes>, params: Bytes) returns (r: Bytes)
    requires out == ByteStream(nals)
    ensures r == ByteStream(nals + if params != [] then [params] else [])
  {
    r := out;
    if |params| > 0 {
      ByteStreamSnoc(nals, params);
      r := r + StartCode + params;
    } else {
      assert nals + [] == nals;
    }
  }

  lemma TakeAllSnoc(d: Depack, ps: seq<Bytes>, p: Bytes)
    ensures TakeAll(d, ps + [p]) == Take(TakeAll(d, ps), p)
  {
    assert (ps + [p])[..|ps|] == ps;
  }

  lemma {:induction false} StreamPrefix(a: seq<Bytes>, b: seq<Bytes>)
    ensures ByteStream(a) <= ByteStream(a + b)
  {
    if b == [] {
      assert a + b == a;
    } else {
      var n := |b| - 1;
      assert a + b == (a + b[..n]) + [b[n]];
      ByteStreamSnoc(a + b[..n], b[n]);
      StreamPrefix(a, b[..n]);
    }
  }

  lemma {:induction false} NalsGrow(d: Depack, ps: seq<Bytes>)
    ensures d.nals <= TakeAll(d, ps).nals
  {
    if ps == [] {
    } else {
      NalsGrow(d, ps[..|ps| - 1]);
    }
  }

  lemma StreamGrows(d: Depack, ps: seq<Bytes>)
    ensures ByteStream(d.nals) <= ByteStream(TakeAll(d, ps).nals)
  {
    NalsGrow(d, ps);
    var nals := TakeAll(d, ps).nals;
    assert nals == d.nals + nals[|d.nals|..];
    StreamPrefix(d.nals, nals[|d.nals|..]);
  }

  /** The byte stream of two NALUs, literally. */
  lemma TwoNals(a: Bytes, b: Bytes)
    ensures ByteStream([a, b]) == [0, 0, 0, 1] + a + [0, 0, 0, 1] + b
  {
    assert [] + [a] == [a] && [a] + [b] == [a, b];
    ByteStreamSnoc([], a);
    ByteStreamSnoc([a], b);
  }

  method BuildIDRAnnexB(cache: seq<Bytes>, sps: Bytes, pps: Bytes) returns (out: Bytes)
    ensures out == ByteStream(TakeAll(Depack(ParamSets(sps, pps), []), cache).nals)
    ensures sps != [] && pps != [] ==> [0, 0, 0, 1] + sps + [0, 0, 0, 1] + pps <= out
  {
    out := AppendParamSet([], [], sps);
    ghost var first := if sps != [] then [sps] else [];
    assert [] + first == first;
    out := AppendParamSet(out, first, pps);
    ghost var d, t := Depack(ParamSets(sps, pps), []), Depack(ParamSets(sps, pps), []);
    var fu: Bytes := [];
    for i := 0 to |cache|
      invariant t == TakeAll(d, cache[..i])
      invariant out == ByteStream(t.nals) && fu == t.fu
    {
      out, fu := AppendPacket(out, fu, t, cache[i]);
      SliceSnoc(cache, 0, i);
      TakeAllSnoc(d, cache[..i], cache[i]);
      t := Take(t, cache[i]);
    }
    assert cache[..|cache|] == cache;
    StreamGrows(d, cache);
    TwoNals(sps, pps);
  }

  // ---------- The packetiser (sections 5.6, 5.7.1 and 5.8 of RFC 6184) ----------

  /** How a sender carries NALUs: one alone, several aggregated, or one in pieces. */
  datatype Carrier =
    | Single(nal: Bytes)
    | StapA(header: Byte, nals: seq<Bytes>)
    | FuA(nal: Bytes, pieces: seq<Bytes>)

  predicate WellFormed(c: Carrier) {
    match c
    case Single(nal) => nal != [] && 1 <= nal[0] % 32 <= 23
    case StapA(header, nals) => header % 32 == 24 && Aggregable(nals)
    case FuA(nal, pieces) => nal != [] && pieces != [] && Flatten(pieces) == nal[1..]
  }

  predicate Aggregable(nals: seq<Bytes>) {
    forall i :: 0 <= i < |nals| ==> |nals[i]| < 0x1_0000
  }

  predicate NoneEmpty(nals: seq<Bytes>) {
    forall i :: 0 <= i < |nals| ==> nals[i] != []
  }

  /** Every NALU behind its length, high byte first. */
  function Aggregate(nals: seq<Bytes>): Bytes
    requires Aggregable(nals)
  {
    if nals == [] then [] else [|nals[0]| / 256, |nals[0]| % 256] + nals[0] + Aggregate(nals[1..])
  }

  /** FU indicator: the NALU's own header with type 28. FU header: start bit, end bit, NALU type. */
  function Fragment(header: Byte, first: bool, last: bool, piece: Bytes): Bytes {
    [header / 32 * 32 + 28, (if first then 128 else 0) + (if last then 64 else 0) + header % 32] + piece
  }

  /** The first n fragments. */
  function Fragments(header: Byte, pieces: seq<Bytes>, n: nat): (fs: seq<Bytes>)
    requires n <= |pieces|
    ensures |fs| == n
    ensures forall j :: 0 <= j < n ==> fs[j] == Fragment(header, j == 0, j == |pieces| - 1, pieces[j])
  {
    if n == 0 then []
    else Fragments(header, pieces, n - 1) + [Fragment(header, n == 1, n == |pieces|, pieces[n - 1])]
  }

  function Payloads(c: Carrier): seq<Bytes>
    requires WellFormed(c)
  {
    match c
    case Single(nal) => [nal]
    case StapA(header, nals) => [[header] + Aggregate(nals)]
    case FuA(nal, pieces) => Fragments(nal[0], pieces, |pieces|)
  }

  function Carried(c: Carrier): seq<Bytes> {
    match c
    case Single(nal) => [nal]
    case StapA(_, nals) => nals
    case FuA(nal, _) => [nal]
  }

  predicate AllWellFormed(cs: seq<Carrier>) {
    forall i :: 0 <= i < |cs| ==> WellFormed(cs[i])
  }

  function AllPayloads(cs: seq<Carrier>): seq<Bytes>
    requires AllWellFormed(cs)
  {
    if cs == [] then [] else AllPayloads(cs[..|cs| - 1]) + Payloads(cs[|cs| - 1])
  }

  function AllCarried(cs: seq<Carrier>): seq<Bytes> {
    if cs == [] then [] else AllCarried(cs[..|cs| - 1]) + Carried(cs[|cs| - 1])
  }

  lemma FragmentBits(header: Byte, first: bool, last: bool, piece: Bytes)
    ensures var p := Fragment(header, first, last, piece);
            |p| >= 2 && p[0] % 32 == 28 && p[1] % 32 == header % 32 && (p[1] / 128 == 1 <==> first)
  {
    var low := header % 32 + if last then 64 else 0;
    assert low % 32 == header % 32 && low < 128;
  }

  /** What the payload tests of the other components say of packetised NALUs: exactly the first payload of
      a carrier is a frame start. */
  lemma PayloadKinds(c: Carrier, j: nat)
    requires WellFormed(c) && j < |Payloads(c)|
    ensures var p := Payloads(c)[j];
            && p != []
            && (IsFrameStart(p) <==> j == 0)
            && (IsStapA(p) <==> c.StapA?)
            && (IsFuA(p) <==> c.FuA?)
            && (IsIdrStart(p) <==> c.FuA? && j == 0 && c.nal[0] % 32 == 5)
  {
    if c.FuA? {
      FragmentBits(c.nal[0], j == 0, j == |c.pieces| - 1, c.pieces[j]);
    }
    PayloadTable(Payloads(c)[j]);
  }

  /** Payloads of other types, a FU-A without its second byte, and empty ones leave no trace. */
  lemma OtherPayloadsAreSkipped(d: Depack, p: Bytes)
    requires p == [] || p[0] % 32 in [0, 25, 26, 27, 29, 30, 31] || (|p| == 1 && p[0] % 32 == 28)
    ensures Take(d, p) == d
  {
  }

  // ---------- Depacketising inverts packetising ----------

  function BeforeEmpty(nals: seq<Bytes>): seq<Bytes> {
    if nals == [] || nals[0] == [] then [] else [nals[0]] + BeforeEmpty(nals[1..])
  }

  lemma {:induction false} BeforeEmptyAll(nals: seq<Bytes>)
    ensures |BeforeEmpty(nals)| <= |nals|
    ensures |BeforeEmpty(nals)| == |nals| <==> NoneEmpty(nals)
    ensures NoneEmpty(nals) ==> BeforeEmpty(nals) == nals
  {
    if nals == [] || nals[0] == [] {
    } else {
      BeforeEmptyAll(nals[1..]);
      assert nals == [nals[0]] + nals[1..];
    }
  }

  /** The walk yields the aggregated NALUs up to the first empty one. */
  lemma {:induction false} WalkStopsAtEmpty(nals: seq<Bytes>)
    requires Aggregable(nals)
    ensures Walk(Aggregate(nals)) == BeforeEmpty(nals)
    decreases |nals|
  {
    if nals == [] {
    } else {
      var n, rest := nals[0], Aggregate(nals[1..]);
      var body := Aggregate(nals);
      assert body == [|n| / 256, |n| % 256] + n + rest;
      assert BE16(body[0], body[1]) == |n|;
      if n != [] {
        assert body[2..2 + |n|] == n && body[2 + |n|..] == rest;
        WalkStopsAtEmpty(nals[1..]);
      }
    }
  }

  /** A fragment from any state: a first one starts the NALU anew, every one adds its piece, and a last one
      ends the NALU; a stray one goes by what was left behind. */
  lemma TakeFragment(d: Depack, header: Byte, first: bool, last: bool, piece: Bytes)
    ensures var fu := (if first then [header] else d.fu) + piece;
            Take(d, Fragment(header, first, last, piece)) ==
            if last && fu != [] then Depack(d.nals + [fu], []) else d.(fu := fu)
  {
    var p := Fragment(header, first, last, piece);
    assert p[2..] == piece;
    assert NalType(p[0]) == FU_A && NalType(p[1]) == NalType(header);
    assert p[0] - NalType(p[0]) + NalType(p[1]) == header;
  }

  function AfterFragment(nals: seq<Bytes>, fu: Bytes, last: bool): Depack {
    if last then Depack(nals + [fu], []) else Depack(nals, fu)
  }

  /** One more fragment behind payloads that left `nals` and `fu`. */
  lemma {:induction false} NextFragment(d: Depack, before: seq<Bytes>, nals: seq<Bytes>, fu: Bytes,
                                        header: Byte, first: bool, last: bool, piece: Bytes)
    requires TakeAll(d, before) == Depack(nals, fu) && (first || fu != [])
    ensures TakeAll(d, before + [Fragment(header, first, last, piece)]) ==
            AfterFragment(nals, (if first then [header] else fu) + piece, last)
  {
    TakeAllSnoc(d, before, Fragment(header, first, last, piece));
    TakeFragment(Depack(nals, fu), header, first, last, piece);
  }

  lemma {:induction false} FlattenNext(header: Byte, pieces: seq<Bytes>, n: nat)
    requires 0 < n <= |pieces|
    ensures [header] + Flatten(pieces[..n]) == [header] + Flatten(pieces[..n - 1]) + pieces[n - 1]
    ensures n == 1 ==> [header] + Flatten(pieces[..n]) == [header] + pieces[0]
  {
    assert pieces[..n] == pieces[..n - 1] + [pieces[n - 1]];
    FlattenSnoc(pieces[..n - 1], pieces[n - 1]);
    Assoc([header], Flatten(pieces[..n - 1]), pieces[n - 1]);
  }

  lemma {:induction false} TakeFragments(d: Depack, header: Byte, pieces: seq<Bytes>, n: nat)
    requires 0 < n <= |pieces|
    ensures TakeAll(d, Fragments(header, pieces, n)) ==
            AfterFragment(d.nals, [header] + Flatten(pieces[..n]), n == |pieces|)
  {
    var before := Fragments(header, pieces, n - 1);
    assert Fragments(header, pieces, n) == before + [Fragment(header, n == 1, n == |pieces|, pieces[n - 1])];
    FlattenNext(header, pieces, n);
    if n == 1 {
      NextFragment(d, before, d.nals, d.fu, header, true, n == |pieces|, pieces[0]);
    } else {
      TakeFragments(d, header, pieces, n - 1);
      var fu := [header] + Flatten(pieces[..n - 1]);
      NextFragment(d, before, d.nals, fu, header, false, n == |pieces|, pieces[n - 1]);
    }
  }

  /** From any state at all, the payloads of one carrier add its NALUs up to the first empty one. */
  lemma CarrierEmits(d: Depack, c: Carrier)
    requires WellFormed(c)
    ensures TakeAll(d, Payloads(c)).nals == d.nals + BeforeEmpty(Carried(c))
  {
    match c {
      case Single(nal) =>
        TakeAllSnoc(d, [], nal);
        assert [] + [nal] == [nal];
        BeforeEmptyAll([nal]);
      case StapA(header, nals) =>
        var p := [header] + Aggregate(nals);
        TakeAllSnoc(d, [], p);
        assert [] + [p] == [p] && p[1..] == Aggregate(nals);
        WalkStopsAtEmpty(nals);
      case FuA(nal, pieces) =>
        TakeFragments(d, nal[0], pieces, |pieces|);
        assert pieces[..|pieces|] == pieces && [nal[0]] + nal[1..] == nal;
        BeforeEmptyAll([nal]);
    }
  }

  function AllEmitted(cs: seq<Carrier>): seq<Bytes> {
    if cs == [] then [] else AllEmitted(cs[..|cs| - 1]) + BeforeEmpty(Carried(cs[|cs| - 1]))
  }

  lemma {:induction false} TakeAllConcat(d: Depack, a: seq<Bytes>, b: seq<Bytes>)
    ensures TakeAll(d, a + b) == TakeAll(TakeAll(d, a), b)
    decreases |b|
  {
    if b == [] {
      assert a + b == a;
    } else {
      var n := |b| - 1;
      assert a + b == (a + b[..n]) + [b[n]];
      TakeAllSnoc(d, a + b[..n], b[n]);
      TakeAllConcat(d, a, b[..n]);
    }
  }

  lemma {:induction false} CarriersEmit(d: Depack, cs: seq<Carrier>)
    requires AllWellFormed(cs)
    ensures TakeAll(d, AllPayloads(cs)).nals == d.nals + AllEmitted(cs)
  {
    if cs == [] {
      assert d.nals + [] == d.nals;
    } else {
      var init, last := cs[..|cs| - 1], cs[|cs| - 1];
      CarriersEmit(d, init);
      TakeAllConcat(d, AllPayloads(init), Payloads(last));
      CarrierEmits(TakeAll(d, AllPayloads(init)), last);
      Assoc(d.nals, AllEmitted(init), BeforeEmpty(Carried(last)));
    }
  }

  lemma NoneEmptyConcat(a: seq<Bytes>, b: seq<Bytes>)
    ensures NoneEmpty(a + b) <==> NoneEmpty(a) && NoneEmpty(b)
  {
    assert forall i :: 0 <= i < |a| ==> (a + b)[i] == a[i];
    assert forall i :: 0 <= i < |b| ==> (a + b)[|a| + i] == b[i];
  }

  lemma {:induction false} EmittedIsCarried(cs: seq<Carrier>)
    ensures |AllEmitted(cs)| <= |AllCarried(cs)|
    ensures |AllEmitted(cs)| == |AllCarried(cs)| <==> NoneEmpty(AllCarried(cs))
    ensures NoneEmpty(AllCarried(cs)) ==> AllEmitted(cs) == AllCarried(cs)
  {
    if cs == [] {
    } else {
      var init, last := cs[..|cs| - 1], cs[|cs| - 1];
      EmittedIsCarried(init);
      BeforeEmptyAll(Carried(last));
      NoneEmptyConcat(AllCarried(init), Carried(last));
    }
  }

  /** What BuildIDRAnnexB makes of NALUs that were each sent alone, aggregated, or cut into fragments
      anywhere: the parameter sets and then every NALU in order, if and only if none is empty. */
  lemma DepacketiserInvertsPacketiser(cs: seq<Carrier>, sps: Bytes, pps: Bytes)
    requires AllWellFormed(cs)
    ensures TakeAll(Depack(ParamSets(sps, pps), []), AllPayloads(cs)).nals == ParamSets(sps, pps) + AllCarried(cs)
            <==> NoneEmpty(AllCarried(cs))
  {
    var d := Depack(ParamSets(sps, pps), []);
    CarriersEmit(d, cs);
    EmittedIsCarried(cs);
    assert |d.nals + AllEmitted(cs)| == |d.nals| + |AllEmitted(cs)| && |d.nals + AllCarried(cs)| == |d.nals| + |AllCarried(cs)|;
  }

  // ---------- Parameter sets of a STAP-A ----------

  /** All entries that parseSTAPA looks at: unlike the walk, it passes over empty ones. */
  function Entries(payload: Bytes, off: nat): seq<Bytes>
    decreases |payload| - off
  {
    if off + 2 >= |payload| then []
    else
      var next := off + 2 + BE16(payload[off], payload[off + 1]);
      if next > |payload| then []
      else [payload[off + 2..next]] + Entries(payload, next)
  }

  /** The last NALU of a type. */
  function LastOfType(nals: seq<Bytes>, t: Byte): Option<Bytes> {
    if nals == [] then None
    else
      var n := nals[|nals| - 1];
      if n != [] && NalType(n[0]) == t then Some(n) else LastOfType(nals[..|nals| - 1], t)
  }

  lemma LastOfTypeSnoc(nals: seq<Bytes>, n: Bytes, t: Byte)
    ensures LastOfType(nals + [n], t) == if n != [] && NalType(n[0]) == t then Some(n) else LastOfType(nals, t)
  {
    assert (nals + [n])[..|nals|] == nals;
  }

  /** It is the one at the last index of that type. */
  lemma {:induction false} LastOfTypeIff(nals: seq<Bytes>, t: Byte, k: nat)
    requires k < |nals| && nals[k] != [] && nals[k][0] % 32 == t
    requires forall j :: k < j < |nals| ==> nals[j] == [] || nals[j][0] % 32 != t
    ensures LastOfType(nals, t) == Some(nals[k])
  {
    if k == |nals| - 1 {
    } else {
      LastOfTypeIff(nals[..|nals| - 1], t, k);
    }
  }

  lemma {:induction false} NoneOfType(nals: seq<Bytes>, t: Byte)
    requires forall j :: 0 <= j < |nals| ==> nals[j] == [] || nals[j][0] % 32 != t
    ensures LastOfType(nals, t) == None
  {
    if nals == [] {
    } else {
      NoneOfType(nals[..|nals| - 1], t);
    }
  }

  lemma HeadOfAggregate(p: Bytes, off: nat, n: Bytes, tail: Bytes)
    requires off <= |p| && |n| < 0x1_0000 && p[off..] == [|n| / 256, |n| % 256] + n + tail
    ensures off + 2 + |n| <= |p| && p[off] == |n| / 256 && p[off + 1] == |n| % 256
    ensures p[off + 2..off + 2 + |n|] == n && p[off + 2 + |n|..] == tail
  {
    var w := p[off..];
    assert p[off] == w[0] && p[off + 1] == w[1];
    assert p[off + 2..off + 2 + |n|] == w[2..2 + |n|] == n;
    assert p[off + 2 + |n|..] == w[2 + |n|..] == tail;
  }

  lemma EntriesUnfold(p: Bytes, off: nat, n: Bytes)
    requires off + 2 < |p| && off + 2 + |n| <= |p| && |n| < 0x1_0000
    requires p[off] == |n| / 256 && p[off + 1] == |n| % 256 && p[off + 2..off + 2 + |n|] == n
    ensures Entries(p, off) == [n] + Entries(p, off + 2 + |n|)
  {
  }

  lemma {:induction false} AggregateIsLong(nals: seq<Bytes>)
    requires Aggregable(nals) && nals != [] && nals[|nals| - 1] != []
    ensures |Aggregate(nals)| > 2
  {
    if |nals| > 1 {
      assert |Aggregate(nals[1..])| >= 2;
    }
  }

  predicate NoneTrails(nals: seq<Bytes>) {
    nals != [] ==> nals[|nals| - 1] != []
  }

  lemma {:induction false} FirstOfAggregate(p: Bytes, off: nat, n: Bytes, rest: seq<Bytes>)
    requires off <= |p| && Aggregable([n] + rest) && NoneTrails([n] + rest) && p[off..] == Aggregate([n] + rest)
    ensures Aggregable(rest) && NoneTrails(rest)
    ensures off + 2 + |n| <= |p| && p[off + 2 + |n|..] == Aggregate(rest)
    ensures Entries(p, off) == [n] + Entries(p, off + 2 + |n|)
  {
    var nals := [n] + rest;
    assert nals[1..] == rest && nals[0] == n && forall i :: 0 <= i < |rest| ==> rest[i] == nals[i + 1];
    AggregateIsLong(nals);
    HeadOfAggregate(p, off, n, Aggregate(rest));
    EntriesUnfold(p, off, n);
  }

  /** On an aggregate parseSTAPA sees exactly the aggregated NALUs, empty ones included (a trailing empty one
      does not show). */
  lemma {:induction false} EntriesOfAggregate(p: Bytes, off: nat, nals: seq<Bytes>)
    requires off <= |p| && Aggregable(nals) && NoneTrails(nals) && p[off..] == Aggregate(nals)
    ensures Entries(p, off) == nals
    decreases |nals|
  {
    if nals == [] {
    } else {
      var n, rest := nals[0], nals[1..];
      assert nals == [n] + rest;
      FirstOfAggregate(p, off, n, rest);
      EntriesOfAggregate(p, off + 2 + |n|, rest);
    }
  }

  const SPS: Byte := 7
  const PPS: Byte := 8

  method ParseSTAPA(payload: Bytes) returns (sps: Option<Bytes>, pps: Option<Bytes>)
    ensures sps == LastOfType(Entries(payload, 1), 7) && pps == LastOfType(Entries(payload, 1), 8)
  {
    sps, pps := None, None;
    var offset := 1;
    ghost var seen: seq<Bytes> := [];
    while offset + 2 < |payload|
      invariant 1 <= offset
      invariant seen + Entries(payload, offset) == Entries(payload, 1)
      invariant sps == LastOfType(seen, SPS) && pps == LastOfType(seen, PPS)
    {
      var naluSize := BE16(payload[offset], payload[offset + 1]);
      if offset + 2 + naluSize > |payload| {
        break;
      }
      var nalu := payload[offset + 2..offset + 2 + naluSize];
      Assoc(seen, [nalu], Entries(payload, offset + 2 + naluSize));
      LastOfTypeSnoc(seen, nalu, SPS);
      LastOfTypeSnoc(seen, nalu, PPS);
      seen := seen + [nalu];
      if |nalu| > 0 {
        if NalType(nalu[0]) == SPS {
          sps := Some(nalu);
        } else if NalType(nalu[0]) == PPS {
          pps := Some(nalu);
        }
      }
      offset := offset + 2 + naluSize;
    }
    assert seen + [] == seen;
  }

  /** One step of the walk, in terms of the whole payload. */
  lemma WalkStep(payload: Bytes, off: nat)
    requires off + 2 < |payload|
    ensures var size := BE16(payload[off], payload[off + 1]);
            var next := off + 2 + size;
            Walk(payload[off..]) == if size == 0 || next > |payload| then []
                                    else [payload[off + 2..next]] + Walk(payload[next..])
  {
    Tail(payload, off, BE16(payload[off], payload[off + 1]));
  }

  lemma EntriesStep(payload: Bytes, off: nat)
    requires off + 2 < |payload|
    ensures var next := off + 2 + BE16(payload[off], payload[off + 1]);
            Entries(payload, off) == if next > |payload| then []
                                     else [payload[off + 2..next]] + Entries(payload, next)
  {
  }

  lemma {:induction false} AgreeStep(n: Bytes, walk: seq<Bytes>, entries: seq<Bytes>)
    requires walk == BeforeEmpty(entries)
    ensures (if n == [] then [] else [n] + walk) == BeforeEmpty([n] + entries)
  {
    BeforeEmptyCons(n, entries);
  }

  /** The two readers of a STAP-A agree on every byte string, well formed or not, up to the first
      empty entry: the walk stops there and parseSTAPA goes on. */
  lemma {:induction false} WalkIsEntriesBeforeEmpty(payload: Bytes, off: nat)
    requires off <= |payload|
    ensures Walk(payload[off..]) == BeforeEmpty(Entries(payload, off))
    decreases |payload| - off
  {
    if off + 2 >= |payload| {
      assert Entries(payload, off) == [] && Walk(payload[off..]) == [];
    } else {
      WalkStep(payload, off);
      EntriesStep(payload, off);
      var next := off + 2 + BE16(payload[off], payload[off + 1]);
      if next <= |payload| {
        WalkIsEntriesBeforeEmpty(payload, next);
        AgreeStep(payload[off + 2..next], Walk(payload[next..]), Entries(payload, next));
      }
    }
  }

  lemma BeforeEmptyCons(n: Bytes, rest: seq<Bytes>)
    ensures BeforeEmpty([n] + rest) == if n == [] then [] else [n] + BeforeEmpty(rest)
  {
    assert ([n] + rest)[1..] == rest;
  }

  lemma Tail(payload: Bytes, off: nat, size: nat)
    requires off + 2 < |payload|
    ensures var body := payload[off..];
            && |body| == |payload| - off && body[0] == payload[off] && body[1] == payload[off + 1]
            && (off + 2 + size <= |payload| ==>
                  && body[2..2 + size] == payload[off + 2..off + 2 + size]
                  && body[2 + size..] == payload[off + 2 + size..])
  {
  }

  /** Without empty entries, parseSTAPA returns the last SPS and PPS among the NALUs the walk emits. */
  lemma ParamSetsOfWalk(payload: Bytes)
    requires |payload| >= 1 && NoneEmpty(Entries(payload, 1))
    ensures Walk(payload[1..]) == Entries(payload, 1)
  {
    WalkIsEntriesBeforeEmpty(payload, 1);
    BeforeEmptyAll(Entries(payload, 1));
  }
}
