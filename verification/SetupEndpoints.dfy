/** The SetupEndpoints exchange: a TLV8 list whose address and SRTP parameters are TLV8 lists
    themselves. The address stays text; parsing it as an IP is not part of this model. */
module SetupEndpoints {
  import opened Rtp
  import opened Endian
  import opened Seqs
  import opened Tlv8

  const SESSION_ID: Byte := 1
  const STATUS: Byte := 2
  const ADDRESS: Byte := 3
  const VIDEO_PARAMS: Byte := 4
  const AUDIO_PARAMS: Byte := 5

  const ADDRESS_VERSION: Byte := 1
  const ADDRESS_IP: Byte := 2
  const ADDRESS_VIDEO_PORT: Byte := 3
  const ADDRESS_AUDIO_PORT: Byte := 4

  const CRYPTO_TYPE: Byte := 1
  const MASTER_KEY: Byte := 2
  const MASTER_SALT: Byte := 3
  const AES_CM_128: Byte := 0

  type U16 = Seq16
  const Zero16: Bytes := [0, 0, 0, 0, 0, 0, 0, 0, 0, 0, 0, 0, 0, 0, 0, 0]
  type Bytes16 = b: Bytes | |b| == 16 witness Zero16
  type Bytes14 = b: Bytes | |b| == 14 witness Zero16[..14]

  datatype Endpoints = Endpoints(
    sessionID: Bytes16, ip: Bytes, ipv6: bool, videoPort: U16, audioPort: U16,
    videoKey: Bytes16, videoSalt: Bytes14, audioKey: Bytes16, audioSalt: Bytes14)

  /** None stands for a nil slice. */
  datatype Response = Response(
    sessionID: Bytes16, status: Byte, ip: Option<Bytes>, videoPort: U16, audioPort: U16,
    videoKey: Option<Bytes>, videoSalt: Option<Bytes>, audioKey: Option<Bytes>, audioSalt: Option<Bytes>)

  const EmptyResponse := Response(Zero16, 0, None, 0, 0, None, None, None, None)

  datatype Decoded = Accepted(response: Response) | Rejected(error: Error)

  // ---------- Encoding ----------

  function AddressItems(ep: Endpoints): seq<Item> {
    [Item(ADDRESS_VERSION, [if ep.ipv6 then 1 else 0]), Item(ADDRESS_IP, ep.ip),
     Item(ADDRESS_VIDEO_PORT, PutLE(ep.videoPort, 2)), Item(ADDRESS_AUDIO_PORT, PutLE(ep.audioPort, 2))]
  }

  function SrtpItems(key: Bytes, salt: Bytes): seq<Item> {
    [Item(CRYPTO_TYPE, [AES_CM_128]), Item(MASTER_KEY, key), Item(MASTER_SALT, salt)]
  }

  /** The outer list; a camera's reply carries a status item, the controller's request does not. */
  function OuterItems(ep: Endpoints, status: Option<Byte>): seq<Item> {
    [Item(SESSION_ID, ep.sessionID)] +
    (if status.Some? then [Item(STATUS, [status.value])] else []) +
    [Item(ADDRESS, Encode(AddressItems(ep))),
     Item(VIDEO_PARAMS, Encode(SrtpItems(ep.videoKey, ep.videoSalt))),
     Item(AUDIO_PARAMS, Encode(SrtpItems(ep.audioKey, ep.audioSalt)))]
  }

  function EncodeSetupEndpoints(ep: Endpoints): Bytes {
    Encode(OuterItems(ep, None))
  }

  // ---------- Decoding ----------

  /** The list nested under `typ`; a missing or malformed one has no items. */
  function Nested(items: seq<Item>, typ: Byte): seq<Item> {
    match GetBytes(items, typ)
    case None => []
    case Some(data) => match Decode(data) { case Ok(inner) => inner case Err(_) => [] }
  }

  function PortOf(items: seq<Item>, typ: Byte): U16 {
    match GetBytes(items, typ)
    case Some(b) => if |b| == 2 then GetLE(b) else 0
    case None => 0
  }

  function ResponseOf(items: seq<Item>): Response {
    var sid, status := GetBytes(items, SESSION_ID), GetBytes(items, STATUS);
    var addr, video, audio := Nested(items, ADDRESS), Nested(items, VIDEO_PARAMS), Nested(items, AUDIO_PARAMS);
    Response(
      if sid.Some? && |sid.value| == 16 then sid.value else Zero16,
      if status.Some? && status.value != [] then status.value[0] else 0,
      GetBytes(addr, ADDRESS_IP), PortOf(addr, ADDRESS_VIDEO_PORT), PortOf(addr, ADDRESS_AUDIO_PORT),
      GetBytes(video, MASTER_KEY), GetBytes(video, MASTER_SALT),
      GetBytes(audio, MASTER_KEY), GetBytes(audio, MASTER_SALT))
  }

  function DecodeResponse(data: Bytes): Decoded {
    match Decode(data)
    case Ok(items) => Accepted(ResponseOf(items))
    case Err(e) => Rejected(e)
  }

  method DecodeAddress(items: seq<Item>, resp: Response) returns (r: Response)
    requires resp.ip.None? && resp.videoPort == 0 && resp.audioPort == 0
    ensures var addr := Nested(items, ADDRESS);
            r == resp.(ip := GetBytes(addr, ADDRESS_IP), videoPort := PortOf(addr, ADDRESS_VIDEO_PORT),
                       audioPort := PortOf(addr, ADDRESS_AUDIO_PORT))
  {
    r := resp;
    var data := TLV8GetBytes(items, ADDRESS);
    if data.Some? {
      var inner := TLV8Decode(data.value);
      if inner.Ok? {
        var ip := TLV8GetBytes(inner.items, ADDRESS_IP);
        if ip.Some? {
          r := r.(ip := ip);
        }
        var vp := TLV8GetBytes(inner.items, ADDRESS_VIDEO_PORT);
        if vp.Some? && |vp.value| == 2 {
          r := r.(videoPort := GetLE(vp.value));
        }
        var ap := TLV8GetBytes(inner.items, ADDRESS_AUDIO_PORT);
        if ap.Some? && |ap.value| == 2 {
          r := r.(audioPort := GetLE(ap.value));
        }
      }
    }
  }

  method DecodeSrtp(items: seq<Item>, typ: Byte) returns (key: Option<Bytes>, salt: Option<Bytes>)
    ensures key == GetBytes(Nested(items, typ), MASTER_KEY)
    ensures salt == GetBytes(Nested(items, typ), MASTER_SALT)
  {
    key, salt := None, None;
    var data := TLV8GetBytes(items, typ);
    if data.Some? {
      var inner := TLV8Decode(data.value);
      if inner.Ok? {
        key := TLV8GetBytes(inner.items, MASTER_KEY);
        salt := TLV8GetBytes(inner.items, MASTER_SALT);
      }
    }
  }

  method DecodeStreamResponse(data: Bytes) returns (r: Decoded)
    ensures r == DecodeResponse(data)
  {
    var outer := TLV8Decode(data);
    if outer.Err? {
      return Rejected(outer.error);
    }
    var items := outer.items;
    var resp := EmptyResponse;
    var sid := TLV8GetBytes(items, SESSION_ID);
    if sid.Some? && |sid.value| == 16 {
      resp := resp.(sessionID := sid.value);
    }
    var status, ok := TLV8GetByte(items, STATUS);
    if ok {
      resp := resp.(status := status);
    }
    resp := DecodeAddress(items, resp);
    var vk, vs := DecodeSrtp(items, VIDEO_PARAMS);
    var ak, asalt := DecodeSrtp(items, AUDIO_PARAMS);
    return Accepted(resp.(videoKey := vk, videoSalt := vs, audioKey := ak, audioSalt := asalt));
  }

  // ---------- Round trip ----------

  /** Looking up the type of the k-th item finds that item, if no earlier one has the type. */
  lemma {:induction false} GetBytesFirst(items: seq<Item>, k: nat)
    requires k < |items| && forall j :: 0 <= j < k ==> items[j].typ != items[k].typ
    ensures GetBytes(items, items[k].typ) == Some(items[k].value)
  {
    if k == 0 {
    } else {
      assert items[0].typ != items[k].typ;
      assert items[1..][k - 1] == items[k];
      GetBytesFirst(items[1..], k - 1);
    }
  }

  lemma {:induction false} GetBytesMissing(items: seq<Item>, typ: Byte)
    requires forall j :: 0 <= j < |items| ==> items[j].typ != typ
    ensures GetBytes(items, typ) == None
  {
    if items == [] {
    } else {
      GetBytesMissing(items[1..], typ);
    }
  }

  /** Items of rising types: they round-trip and each is found by its type. */
  predicate Rising(items: seq<Item>) {
    forall i, j :: 0 <= i < j < |items| ==> items[i].typ < items[j].typ
  }

  lemma RisingDecodes(items: seq<Item>, k: nat)
    requires Rising(items) && k < |items|
    ensures Decode(Encode(items)) == Ok(items)
    ensures GetBytes(items, items[k].typ) == Some(items[k].value)
  {
    DistinctTypesRoundTrip(items);
    GetBytesFirst(items, k);
  }

  lemma AddressDecodes(ep: Endpoints)
    ensures var items := AddressItems(ep);
            && Decode(Encode(items)) == Ok(items)
            && GetBytes(items, ADDRESS_IP) == Some(ep.ip)
            && PortOf(items, ADDRESS_VIDEO_PORT) == ep.videoPort
            && PortOf(items, ADDRESS_AUDIO_PORT) == ep.audioPort
  {
    var items := AddressItems(ep);
    RisingDecodes(items, 1);
    RisingDecodes(items, 2);
    RisingDecodes(items, 3);
    LittleEndianRoundTrip(ep.videoPort, 2);
    LittleEndianRoundTrip(ep.audioPort, 2);
  }

  lemma SrtpDecodes(key: Bytes, salt: Bytes)
    ensures var items := SrtpItems(key, salt);
            && Decode(Encode(items)) == Ok(items)
            && GetBytes(items, MASTER_KEY) == Some(key)
            && GetBytes(items, MASTER_SALT) == Some(salt)
  {
    var items := SrtpItems(key, salt);
    RisingDecodes(items, 1);
    RisingDecodes(items, 2);
  }

  /** What the decoder should recover of `ep` and the status. */
  function Echo(ep: Endpoints, status: Byte): Response {
    Response(ep.sessionID, status, Some(ep.ip), ep.videoPort, ep.audioPort,
             Some(ep.videoKey), Some(ep.videoSalt), Some(ep.audioKey), Some(ep.audioSalt))
  }

  lemma GetBytesIn(items: seq<Item>, k: nat, extra: seq<Item>)
    requires Rising(items) && k < |items|
    ensures GetBytes(items + extra, items[k].typ) == Some(items[k].value)
  {
    assert (items + extra)[k] == items[k];
    GetBytesFirst(items + extra, k);
  }

  lemma OuterFields(ep: Endpoints, status: Option<Byte>, extra: seq<Item>)
    requires forall j :: 0 <= j < |extra| ==> extra[j].typ > AUDIO_PARAMS
    ensures var items := OuterItems(ep, status) + extra;
            && GetBytes(items, SESSION_ID) == Some(ep.sessionID)
            && GetBytes(items, STATUS) == (if status.Some? then Some([status.value]) else None)
            && GetBytes(items, ADDRESS) == Some(Encode(AddressItems(ep)))
            && GetBytes(items, VIDEO_PARAMS) == Some(Encode(SrtpItems(ep.videoKey, ep.videoSalt)))
            && GetBytes(items, AUDIO_PARAMS) == Some(Encode(SrtpItems(ep.audioKey, ep.audioSalt)))
  {
    var outer := OuterItems(ep, status);
    var n := if status.Some? then 1 else 0;
    GetBytesIn(outer, 0, extra);
    GetBytesIn(outer, n + 1, extra);
    GetBytesIn(outer, n + 2, extra);
    GetBytesIn(outer, n + 3, extra);
    if status.Some? {
      GetBytesIn(outer, 1, extra);
    } else {
      GetBytesMissing(outer + extra, STATUS);
    }
  }

  /** A reply in the same layout, with or without a status and with any trailing items of other
      types, decodes to the session ID, ports, keys, salts and address
      text it was built from, whatever the address text. */
  lemma ReplyRoundTrip(ep: Endpoints, status: Option<Byte>, extra: seq<Item>)
    requires forall j :: 0 <= j < |extra| ==> extra[j].typ > AUDIO_PARAMS
    requires forall j :: 0 < j < |extra| ==> extra[j - 1].typ != extra[j].typ
    ensures DecodeResponse(Encode(OuterItems(ep, status) + extra)) ==
            Accepted(Echo(ep, if status.Some? then status.value else 0))
  {
    DistinctTypesRoundTrip(OuterItems(ep, status) + extra);
    OuterFields(ep, status, extra);
    AddressDecodes(ep);
    SrtpDecodes(ep.videoKey, ep.videoSalt);
    SrtpDecodes(ep.audioKey, ep.audioSalt);
  }

  /** Decoding the controller's own request recovers every field, with status 0. */
  lemma SetupEndpointsRoundTrip(ep: Endpoints)
    ensures DecodeResponse(EncodeSetupEndpoints(ep)) == Accepted(Echo(ep, 0))
  {
    assert OuterItems(ep, None) + [] == OuterItems(ep, None);
    ReplyRoundTrip(ep, None, []);
  }

  lemma NestedFirst(items: seq<Item>, typ: Byte, inner: seq<Item>)
    requires GetBytes(items, typ) == Some(Encode(inner)) && inner != [] && Rising(inner)
    ensures GetBytes(Nested(items, typ), inner[0].typ) == Some(inner[0].value)
  {
    RisingDecodes(inner, 0);
  }

  /** The request also tells the accessory the address family and the cipher suite, which the
      controller's own decoder does not look at. */
  lemma RequestNamesFamilyAndSuite(ep: Endpoints)
    ensures var outer := Decode(EncodeSetupEndpoints(ep));
            && outer.Ok?
            && GetBytes(Nested(outer.items, 3), 1) == Some([if ep.ipv6 then 1 else 0])
            && GetBytes(Nested(outer.items, 4), 1) == Some([0])
            && GetBytes(Nested(outer.items, 5), 1) == Some([0])
  {
    var outer := OuterItems(ep, None);
    DistinctTypesRoundTrip(outer);
    assert outer + [] == outer;
    OuterFields(ep, None, []);
    NestedFirst(outer, 3, AddressItems(ep));
    NestedFirst(outer, 4, SrtpItems(ep.videoKey, ep.videoSalt));
    NestedFirst(outer, 5, SrtpItems(ep.audioKey, ep.audioSalt));
  }

  // ---------- The bytes ----------

  /** Items of at most 255 bytes, one behind the other. */
  function Plain(items: seq<Item>): Bytes
    requires Short(items)
  {
    if items == [] then [] else [items[0].typ, |items[0].value|] + items[0].value + Plain(items[1..])
  }

  lemma {:induction false} EncodeIsPlain(items: seq<Item>)
    requires Short(items)
    ensures Encode(items) == Plain(items)
  {
    if items == [] {
      EncodeLayout(0, [], []);
    } else {
      EncodeLayout(items[0].typ, items[0].value, items[1..]);
      assert [Item(items[0].typ, items[0].value)] + items[1..] == items;
      EncodeIsPlain(items[1..]);
    }
  }

  lemma {:induction false} PlainCons(item: Item, rest: seq<Item>)
    requires |item.value| <= 255 && Short(rest)
    ensures Short([item] + rest) && Plain([item] + rest) == [item.typ, |item.value|] + item.value + Plain(rest)
  {
    assert ([item] + rest)[1..] == rest;
  }

  /** Address family, address text, and the ports with their low bytes first. */
  function AddressBytes(ep: Endpoints): Bytes
    requires |ep.ip| <= 242
  {
    [1, 1, if ep.ipv6 then 1 else 0] + ([2, |ep.ip|] + ep.ip +
    ([3, 2, ep.videoPort % 256, ep.videoPort / 256] + [4, 2, ep.audioPort % 256, ep.audioPort / 256]))
  }

  /** Cipher suite 0, key and salt. */
  function SrtpBytes(key: Bytes16, salt: Bytes14): Bytes {
    [1, 1, 0] + ([2, 16] + key + ([3, 14] + salt))
  }

  function ParamBytes(ep: Endpoints): Bytes
    requires |ep.ip| <= 242
  {
    [3, 13 + |ep.ip|] + AddressBytes(ep) +
    ([4, 37] + SrtpBytes(ep.videoKey, ep.videoSalt) + ([5, 37] + SrtpBytes(ep.audioKey, ep.audioSalt)))
  }

  lemma PortsAre(video: U16, audio: U16)
    ensures var items := [Item(3, PutLE(video, 2)), Item(4, PutLE(audio, 2))];
            Short(items) && Plain(items) == [3, 2, video % 256, video / 256] + [4, 2, audio % 256, audio / 256]
  {
    var v, a := Item(3, PutLE(video, 2)), Item(4, PutLE(audio, 2));
    TwoBytes(video);
    TwoBytes(audio);
    PlainCons(a, []);
    assert [a] + [] == [a];
    PlainCons(v, [a]);
    assert [v] + [a] == [v, a];
    assert [3, 2] + [video % 256, video / 256] == [3, 2, video % 256, video / 256];
    assert [4, 2] + [audio % 256, audio / 256] + [] == [4, 2, audio % 256, audio / 256];
  }

  lemma AddressIs(ep: Endpoints)
    requires |ep.ip| <= 242
    ensures Encode(AddressItems(ep)) == AddressBytes(ep) && |AddressBytes(ep)| == 13 + |ep.ip|
  {
    var ports := [Item(3, PutLE(ep.videoPort, 2)), Item(4, PutLE(ep.audioPort, 2))];
    var family, ip := Item(1, [if ep.ipv6 then 1 else 0]), Item(2, ep.ip);
    PortsAre(ep.videoPort, ep.audioPort);
    PlainCons(ip, ports);
    PlainCons(family, [ip] + ports);
    assert AddressItems(ep) == [family] + ([ip] + ports);
    assert [1, 1] + family.value == [1, 1, if ep.ipv6 then 1 else 0];
    EncodeIsPlain(AddressItems(ep));
  }

  lemma SrtpIs(key: Bytes16, salt: Bytes14)
    ensures Encode(SrtpItems(key, salt)) == SrtpBytes(key, salt) && |SrtpBytes(key, salt)| == 37
  {
    var suite, k, s := Item(1, [0]), Item(2, key), Item(3, salt);
    PlainCons(s, []);
    assert [s] + [] == [s];
    PlainCons(k, [s]);
    PlainCons(suite, [k] + [s]);
    assert SrtpItems(key, salt) == [suite] + ([k] + [s]);
    EncodeIsPlain(SrtpItems(key, salt));
  }

  lemma ParamsAre(ep: Endpoints)
    requires |ep.ip| <= 242
    ensures var items := [Item(3, Encode(AddressItems(ep))), Item(4, Encode(SrtpItems(ep.videoKey, ep.videoSalt))),
                          Item(5, Encode(SrtpItems(ep.audioKey, ep.audioSalt)))];
            Short(items) && Plain(items) == ParamBytes(ep)
  {
    AddressIs(ep);
    SrtpIs(ep.videoKey, ep.videoSalt);
    SrtpIs(ep.audioKey, ep.audioSalt);
    var a, v := Item(3, AddressBytes(ep)), Item(4, SrtpBytes(ep.videoKey, ep.videoSalt));
    var w := Item(5, SrtpBytes(ep.audioKey, ep.audioSalt));
    PlainCons(w, []);
    assert [w] + [] == [w];
    PlainCons(v, [w]);
    PlainCons(a, [v] + [w]);
    assert [a] + ([v] + [w]) == [a, v, w];
  }

  /** The request, byte for byte, for every address text of up to 242 characters. */
  lemma RequestBytes(ep: Endpoints)
    requires |ep.ip| <= 242
    ensures EncodeSetupEndpoints(ep) == [1, 16] + ep.sessionID + ParamBytes(ep)
  {
    var items := OuterItems(ep, None)[1..];
    ParamsAre(ep);
    assert items == [Item(3, Encode(AddressItems(ep))), Item(4, Encode(SrtpItems(ep.videoKey, ep.videoSalt))),
                     Item(5, Encode(SrtpItems(ep.audioKey, ep.audioSalt)))];
    PlainCons(Item(1, ep.sessionID), items);
    assert OuterItems(ep, None) == [Item(1, ep.sessionID)] + items;
    EncodeIsPlain(OuterItems(ep, None));
  }

  /** A reply with status byte `status`, byte for byte, is decoded to its fields. */
  lemma ReplyBytes(ep: Endpoints, status: Byte)
    requires |ep.ip| <= 242
    ensures DecodeResponse([1, 16] + ep.sessionID + ([2, 1, status] + ParamBytes(ep))) == Accepted(Echo(ep, status))
  {
    var outer := OuterItems(ep, Some(status));
    var items := outer[2..];
    ParamsAre(ep);
    assert items == [Item(3, Encode(AddressItems(ep))), Item(4, Encode(SrtpItems(ep.videoKey, ep.videoSalt))),
                     Item(5, Encode(SrtpItems(ep.audioKey, ep.audioSalt)))];
    PlainCons(Item(2, [status]), items);
    PlainCons(Item(1, ep.sessionID), [Item(2, [status])] + items);
    assert outer == [Item(1, ep.sessionID)] + ([Item(2, [status])] + items);
    assert [2, 1] + [status] == [2, 1, status];
    EncodeIsPlain(outer);
    assert outer + [] == outer;
    ReplyRoundTrip(ep, Some(status), []);
  }

  /** A port of exactly two bytes, lowest first; anything else is no port. */
  predicate ReadsPort(port: U16, field: Option<Bytes>) {
    if field.Some? && |field.value| == 2 then port as int == Value2(field.value[0], field.value[1]) else port == 0
  }

  /** A nested list that is there and well formed, or no items. */
  predicate Inner(inner: seq<Item>, field: Option<Bytes>) {
    if field.Some? && Decode(field.value).Ok? then Decode(field.value) == Ok(inner) else inner == []
  }

  lemma PortReads(items: seq<Item>, typ: Byte)
    ensures ReadsPort(PortOf(items, typ), GetBytes(items, typ))
  {
    var b := GetBytes(items, typ);
    if b.Some? && |b.value| == 2 {
      TwoByteValue(b.value[0], b.value[1]);
      assert b.value == [b.value[0], b.value[1]];
    }
  }

  /** Any response at all, by its tags: it is rejected exactly if the outer list is malformed, and otherwise every
      field is what its tag holds, and empty if the tag is absent, ill-sized or nested in something
      malformed. */
  lemma ResponseFields(data: Bytes)
    ensures DecodeResponse(data).Rejected? <==> Decode(data).Err?
    ensures Decode(data).Ok? ==>
              var items, r := Decode(data).items, DecodeResponse(data).response;
              && (var sid := GetBytes(items, 1);
                  r.sessionID == if sid.Some? && |sid.value| == 16 then sid.value else seq(16, _ => 0))
              && (var status := GetBytes(items, 2);
                  r.status == if status.Some? && |status.value| > 0 then status.value[0] else 0)
              && (exists addr :: Inner(addr, GetBytes(items, 3)) && r.ip == GetBytes(addr, 2)
                                 && ReadsPort(r.videoPort, GetBytes(addr, 3)) && ReadsPort(r.audioPort, GetBytes(addr, 4)))
              && (exists video :: Inner(video, GetBytes(items, 4))
                                  && r.videoKey == GetBytes(video, 2) && r.videoSalt == GetBytes(video, 3))
              && (exists audio :: Inner(audio, GetBytes(items, 5))
                                  && r.audioKey == GetBytes(audio, 2) && r.audioSalt == GetBytes(audio, 3))
  {
    if Decode(data).Ok? {
      var items := Decode(data).items;
      var addr := Nested(items, ADDRESS);
      PortReads(addr, 3);
      PortReads(addr, 4);
      assert Inner(addr, GetBytes(items, 3));
      assert Inner(Nested(items, VIDEO_PARAMS), GetBytes(items, 4));
      assert Inner(Nested(items, AUDIO_PARAMS), GetBytes(items, 5));
    }
  }
}
