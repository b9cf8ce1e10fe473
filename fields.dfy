/** Field codecs of the zenoh message layer: the 16-byte zenoh id, timestamps,
    source info, key expressions and locator lists. Encoders are functions to
    the bytes they append; decoders take the unread bytes. */
module Fields {
  import opened Results
  import opened Wire

  /*------------------ zenoh id (_z_id_t) ------------------*/

  const ID_SIZE: nat := 16

  /** `_z_id_t`: 16 bytes; all zeros is the "no id" state. */
  type Zid = s: Bytes | |s| == ID_SIZE witness Zeros(ID_SIZE)

  /** `_z_id_empty()` */
  const EmptyId: Zid := Zeros(ID_SIZE)

  /** The length of `id[..k]` once trailing zero bytes are dropped. */
  function Significant(id: Bytes, k: nat): (n: nat)
    requires k <= |id|
    ensures n <= k
    ensures forall i :: n <= i < k ==> id[i] == 0
    ensures n > 0 ==> id[n - 1] != 0
  {
    if k == 0 then 0 else if id[k - 1] != 0 then k else Significant(id, k - 1)
  }

  /** `_z_id_len`: how many leading bytes of the id are significant. The C
      body is not part of this model; this is the layout the codecs rely on
      (the id is those bytes, then zeros). */
  function IdLen(id: Zid): (n: nat)
    ensures n <= ID_SIZE
    ensures id == id[..n] + Zeros(ID_SIZE - n)
    ensures n > 0 ==> id[n - 1] != 0
  {
    var n := Significant(id, ID_SIZE);
    assert id == id[..n] + Zeros(ID_SIZE - n);
    n
  }

  /** `_z_id_check`: the id is not the all-zero "no id". */
  predicate IdCheck(id: Zid) {
    IdLen(id) > 0
  }

  lemma IdCheckNonZero(id: Zid)
    ensures IdCheck(id) <==> exists i :: 0 <= i < ID_SIZE && id[i] != 0
  {
    var n := IdLen(id);
    if n > 0 {
      assert id[n - 1] != 0;
    } else {
      assert forall i :: 0 <= i < ID_SIZE ==> id[i] == Zeros(ID_SIZE)[i];
    }
  }

  /** Lays out a decoded id: the bytes read, then zeros. */
  function IdFromBytes(b: Bytes): (id: Zid)
    requires |b| <= ID_SIZE
    ensures id[..|b|] == b
  {
    b + Zeros(ID_SIZE - |b|)
  }

  /** `_z_zbuf_read_bytes` into an id already in place: the bytes read
      replace its first bytes, and the rest of the id is left as it was. */
  function IdOverwrite(prev: Zid, b: Bytes): (id: Zid)
    requires |b| <= ID_SIZE
    ensures id[..|b|] == b && id[|b|..] == prev[|b|..]
  {
    b + prev[|b|..]
  }

  /** Over the empty id, overwriting lays the bytes out as a fresh id. */
  lemma IdOverwriteEmpty(b: Bytes)
    requires |b| <= ID_SIZE
    ensures IdOverwrite(EmptyId, b) == IdFromBytes(b)
  {
    assert EmptyId[|b|..] == Zeros(ID_SIZE - |b|);
  }

  /** An id is its significant bytes, laid out again. */
  lemma IdFromSignificant(id: Zid)
    ensures IdFromBytes(id[..IdLen(id)]) == id
  {
  }

  /** `_z_id_encode_as_zbytes`: the significant length as one byte, then the
      significant bytes; the all-zero id is refused. */
  function IdEncodeAsZbytes(id: Zid): (r: Result<Bytes>)
    ensures r.Ok? <==> IdCheck(id)
    ensures r.Err? ==> r.error == ZenohUnknown
    ensures r.Ok? ==> |r.value| == 1 + IdLen(id) && r.value[0] as nat == IdLen(id)
  {
    if IdCheck(id) then
      var n := IdLen(id);
      NatByte(n);
      Ok([n as byte] + id[..n])
    else Err(ZenohUnknown)
  }

  /** `_z_id_decode_as_zbytes`: a length byte and that many id bytes. A
      length over 16 or a short buffer is refused here (the C code reads past
      either without a check). */
  function IdDecodeAsZbytes(s: Bytes): (r: Result<Decoded<Zid>>)
    ensures r.Ok? ==> |s| > 0 && s[0] as nat <= ID_SIZE && |s| > s[0] as nat
    ensures r.Ok? ==> r.value.value == IdFromBytes(s[1..1 + s[0] as nat]) && r.value.rest == s[1 + s[0] as nat..]
  {
    var n :- Uint8Decode(s);
    if n.value as nat > ID_SIZE then Err(DeserializationFailed)
    else
      var b :- ReadBytes(n.rest, n.value as nat);
      assert b.value == s[1..1 + n.value as nat] && b.rest == s[1 + n.value as nat..];
      Ok(Decoded(IdFromBytes(b.value), b.rest))
  }

  lemma IdRoundTrip(id: Zid, rest: Bytes)
    requires IdCheck(id)
    ensures IdDecodeAsZbytes(IdEncodeAsZbytes(id).value + rest) == Ok(Decoded(id, rest))
  {
    var n := IdLen(id);
    var s := IdEncodeAsZbytes(id).value + rest;
    NatByte(n);
    assert s[1..1 + n] == id[..n] && s[1 + n..] == rest;
  }

  /*------------------ 64-bit integers (_z_uint64_encode / _decode) ------------------*/

  /** `_z_uint64_encode`: a zint. */
  function Uint64Encode(v: u64): Bytes {
    ZintEncode(v)
  }

  /** `_z_uint64_decode`: a zint that must fit in 64 bits. */
  function Uint64Decode(s: Bytes): (r: Result<Decoded<u64>>)
    ensures r.Ok? <==> ZintDecode(s).Ok? && ZintDecode(s).value.value <= U64_MAX
  {
    var v :- ZintDecode(s);
    if v.value <= U64_MAX then Ok(Decoded(v.value, v.rest)) else Err(DeserializationFailed)
  }

  /*------------------ timestamp (_z_timestamp_t) ------------------*/

  datatype Timestamp = Timestamp(time: u64, id: Zid)

  const NullTimestamp: Timestamp := Timestamp(0, EmptyId)

  /** `_z_timestamp_check`: a timestamp is valid when its id is. */
  predicate TimestampCheck(ts: Timestamp) {
    IdCheck(ts.id)
  }

  /** `_z_timestamp_encode`: the time, then the id as zbytes. */
  function TimestampEncode(ts: Timestamp): (r: Result<Bytes>)
    ensures r.Ok? <==> TimestampCheck(ts)
    ensures r.Err? ==> r.error == ZenohUnknown
  {
    var idb :- IdEncodeAsZbytes(ts.id);
    Ok(Uint64Encode(ts.time) + idb)
  }

  /** `_z_timestamp_decode` */
  function TimestampDecode(s: Bytes): (r: Result<Decoded<Timestamp>>) {
    var t :- Uint64Decode(s);
    var id :- IdDecodeAsZbytes(t.rest);
    Ok(Decoded(Timestamp(t.value, id.value), id.rest))
  }

  lemma TimestampRoundTrip(ts: Timestamp, rest: Bytes)
    requires TimestampCheck(ts)
    ensures TimestampDecode(TimestampEncode(ts).value + rest) == Ok(Decoded(ts, rest))
  {
    var idb := IdEncodeAsZbytes(ts.id).value;
    assert TimestampEncode(ts).value + rest == ZintEncode(ts.time) + (idb + rest);
    ZintRoundTrip(ts.time, idb + rest);
    IdRoundTrip(ts.id, rest);
  }

  /*------------------ source info (_z_source_info_t) ------------------*/

  datatype SourceInfo = SourceInfo(id: Zid, entityId: u32, sourceSn: u32)

  const NullSourceInfo: SourceInfo := SourceInfo(EmptyId, 0, 0)

  /** `zidlen << 4` stored in a `uint8_t`: the length goes to the high nibble,
      and a length of 16 overflows to 0. */
  function ZidLenNibble(n: nat): (b: byte)
    requires n <= ID_SIZE
    ensures b as nat == (n * 16) % 256
  {
    var x := (n * 16) % 256;
    NatByte(x);
    x as byte
  }

  /** `_z_source_info_encode`: the id length in the high nibble of the first
      byte, the significant id bytes, the entity id and the sequence number. */
  function SourceInfoEncode(info: SourceInfo): (r: Bytes)
    ensures |r| > 0 && r[0] == ZidLenNibble(IdLen(info.id))
  {
    var n := IdLen(info.id);
    [ZidLenNibble(n)] + info.id[..n] + ZintEncode(info.entityId) + ZintEncode(info.sourceSn)
  }

  /** A zint that must fit in 32 bits. */
  function U32Decode(s: Bytes): (r: Result<Decoded<u32>>)
    ensures r.Ok? <==> ZintDecode(s).Ok? && ZintDecode(s).value.value <= U32_MAX
  {
    var v :- ZintDecode(s);
    if v.value <= U32_MAX then Ok(Decoded(v.value, v.rest)) else Err(DeserializationFailed)
  }

  /** `zidlen >> 4`: the id length a source-info first byte announces. */
  function ZidNibble(b: byte): (n: nat)
    ensures n < 16
  {
    b as nat / 16
  }

  /** `_z_source_info_decode` into the source info `into` the message
      already holds: reads the high nibble of the first byte as the id
      length, copies that many id bytes over the front of the id (the rest
      of the id is not cleared), then reads the entity id and the sequence
      number, each of which must fit in 32 bits. */
  function SourceInfoDecode(into: SourceInfo, s: Bytes): (r: Result<Decoded<SourceInfo>>)
    ensures |s| == 0 ==> r.Err?
    ensures |s| > 0 && |s| - 1 < ZidNibble(s[0]) ==> r == Err(DeserializationFailed)
    ensures r.Ok? ==> r.value.value.id == IdOverwrite(into.id, s[1..1 + ZidNibble(s[0])])
  {
    var h :- Uint8Decode(s);
    var n := ZidNibble(h.value);
    if |h.rest| < n then Err(DeserializationFailed)
    else
      assert h.rest[..n] == s[1..1 + n];
      var e :- U32Decode(h.rest[n..]);
      var sn :- U32Decode(e.rest);
      Ok(Decoded(SourceInfo(IdOverwrite(into.id, h.rest[..n]), e.value, sn.value), sn.rest))
  }

  /** A source info read into a message that already holds one keeps the
      tail of the earlier id: a one-byte id 0xCC read over the id AA BB
      gives CC BB. */
  lemma SourceInfoDecodeKeepsTail(into: SourceInfo)
    requires into.id[..2] == [0xAA, 0xBB]
    ensures var r := SourceInfoDecode(into, [0x10, 0xCC, 0, 0]);
            r == Ok(Decoded(SourceInfo(IdOverwrite(into.id, [0xCC]), 0, 0), []))
            && r.value.value.id[..2] == [0xCC, 0xBB]
  {
    assert ZidNibble(0x10) == 1;
    assert ZintEncode(0) == [0];
    SourceInfoTailRoundTrip(0, 0, []);
    assert ZintEncode(0) + ZintEncode(0) + [] == [0, 0];
    assert U32Decode([0, 0]) == Ok(Decoded(0, [0]));
    assert U32Decode([0]) == Ok(Decoded(0, []));
    SourceInfoDecodeParts(into, 0x10, [0xCC], [0, 0]);
    var s: Bytes := [0x10, 0xCC, 0, 0];
    assert s == [0x10 as byte] + [0xCC as byte] + [0 as byte, 0];
    var id := IdOverwrite(into.id, [0xCC]);
    assert id[1] == into.id[1] == 0xBB;
  }

  /** An entity id or a sequence number wider than 32 bits is refused. */
  lemma SourceInfoDecodeRejectsWide(s: Bytes)
    requires |s| > 0 && |s| - 1 >= ZidNibble(s[0])
    requires var e := ZintDecode(s[1 + ZidNibble(s[0])..]);
             e.Ok? && (e.value.value > U32_MAX
                       || (ZintDecode(e.value.rest).Ok? && ZintDecode(e.value.rest).value.value > U32_MAX))
    ensures forall into :: SourceInfoDecode(into, s) == Err(DeserializationFailed)
  {
    assert s[1..][ZidNibble(s[0])..] == s[1 + ZidNibble(s[0])..];
  }

  /** A length below 16 survives the trip through the high nibble. */
  lemma NibbleRoundTrip(n: nat)
    requires n < ID_SIZE
    ensures ZidNibble(ZidLenNibble(n)) == n
  {
    assert (n * 16) % 256 == n * 16;
    assert (n * 16) / 16 == n;
  }

  /** The entity id and sequence number read back after the id bytes. */
  lemma SourceInfoTailRoundTrip(entityId: u32, sourceSn: u32, rest: Bytes)
    ensures var e := U32Decode(ZintEncode(entityId) + ZintEncode(sourceSn) + rest);
            e == Ok(Decoded(entityId, ZintEncode(sourceSn) + rest))
            && U32Decode(e.value.rest) == Ok(Decoded(sourceSn, rest))
  {
    assert ZintEncode(entityId) + ZintEncode(sourceSn) + rest == ZintEncode(entityId) + (ZintEncode(sourceSn) + rest);
    ZintRoundTrip(entityId, ZintEncode(sourceSn) + rest);
    ZintRoundTrip(sourceSn, rest);
  }

  /** Decoding a first byte, as many id bytes as its nibble announces, and a tail. */
  lemma SourceInfoDecodeParts(into: SourceInfo, b: byte, idBytes: Bytes, tail: Bytes)
    requires |idBytes| == ZidNibble(b) <= ID_SIZE
    ensures SourceInfoDecode(into, [b] + idBytes + tail)
            == (var e :- U32Decode(tail);
                var sn :- U32Decode(e.rest);
                Ok(Decoded(SourceInfo(IdOverwrite(into.id, idBytes), e.value, sn.value), sn.rest)))
  {
    var s := [b] + idBytes + tail;
    assert s[1..][..|idBytes|] == idBytes && s[1..][|idBytes|..] == tail;
  }

  /** Round trip into a message whose id is still empty, for ids shorter
      than 16 bytes: the nibble holds their length. */
  lemma SourceInfoRoundTrip(into: SourceInfo, info: SourceInfo, rest: Bytes)
    requires into.id == EmptyId && IdLen(info.id) < ID_SIZE
    ensures SourceInfoDecode(into, SourceInfoEncode(info) + rest) == Ok(Decoded(info, rest))
  {
    var n := IdLen(info.id);
    var tail := ZintEncode(info.entityId) + ZintEncode(info.sourceSn) + rest;
    assert SourceInfoEncode(info) + rest == [ZidLenNibble(n)] + info.id[..n] + tail;
    NibbleRoundTrip(n);
    IdOverwriteEmpty(info.id[..n]);
    IdFromSignificant(info.id);
    SourceInfoTailRoundTrip(info.entityId, info.sourceSn, rest);
    SourceInfoDecodeOfParts(into, info, ZidLenNibble(n), info.id[..n], tail, ZintEncode(info.sourceSn) + rest, rest);
  }

  /** A source info decoded from parts that each decode to its fields. */
  lemma SourceInfoDecodeOfParts(into: SourceInfo, info: SourceInfo, b: byte, idBytes: Bytes,
                                tail: Bytes, afterEntity: Bytes, rest: Bytes)
    requires |idBytes| == ZidNibble(b) && IdOverwrite(into.id, idBytes) == info.id
    requires U32Decode(tail) == Ok(Decoded(info.entityId, afterEntity))
    requires U32Decode(afterEntity) == Ok(Decoded(info.sourceSn, rest))
    ensures SourceInfoDecode(into, [b] + idBytes + tail) == Ok(Decoded(info, rest))
  {
    SourceInfoDecodeParts(into, b, idBytes, tail);
  }

  /*------------------ key expression (_z_keyexpr_t) ------------------*/

  /** `_z_keyexpr_t`. The suffix, when present, points at a C string. */
  datatype KeyExpr = KeyExpr(id: nat, usesRemoteMapping: bool, ownsSuffix: bool, suffix: Option<Bytes>)

  /** `_z_keyexpr_encode`: the id as a zint, then the suffix string when asked. */
  function KeyexprEncode(hasSuffix: bool, ke: KeyExpr): Bytes
    requires hasSuffix ==> ke.suffix.Some? && IsCStr(ke.suffix.value)
  {
    ZintEncode(ke.id) + (if hasSuffix then StrEncode(ke.suffix.value) else [])
  }

  /** `_z_keyexpr_decode`: the decoded suffix is a fresh C string, or null
      when none is expected. */
  function KeyexprDecode(s: Bytes, hasSuffix: bool): (r: Result<Decoded<KeyExpr>>)
    ensures r.Ok? ==> (r.value.value.suffix.Some? <==> hasSuffix)
    ensures r.Ok? && hasSuffix ==> IsCStr(r.value.value.suffix.value)
  {
    var id :- ZintDecode(s);
    if hasSuffix then
      var str :- StrDecode(id.rest);
      Ok(Decoded(KeyExpr(id.value, false, false, Some(str.value)), str.rest))
    else Ok(Decoded(KeyExpr(id.value, false, false, None), id.rest))
  }

  /** Round trip: the id comes back, and so do the suffix's characters. */
  lemma KeyexprRoundTrip(hasSuffix: bool, ke: KeyExpr, rest: Bytes)
    requires hasSuffix ==> ke.suffix.Some? && IsCStr(ke.suffix.value)
    ensures var r := KeyexprDecode(KeyexprEncode(hasSuffix, ke) + rest, hasSuffix);
            r.Ok? && r.value.rest == rest && r.value.value.id == ke.id
            && (hasSuffix ==> StrValue(r.value.value.suffix.value) == StrValue(ke.suffix.value))
  {
    if hasSuffix {
      var str := StrEncode(ke.suffix.value);
      assert KeyexprEncode(hasSuffix, ke) + rest == ZintEncode(ke.id) + (str + rest);
      ZintRoundTrip(ke.id, str + rest);
      StrRoundTrip(ke.suffix.value, rest);
    } else {
      assert KeyexprEncode(hasSuffix, ke) + rest == ZintEncode(ke.id) + rest;
      ZintRoundTrip(ke.id, rest);
    }
  }

  /*------------------ locators (_z_locator_array_t) ------------------*/

  /** A locator, as the characters of its string form (`_z_locator_to_str`). */
  type Locator = Bytes

  /** One locator: `_z_str_encode` of its string, which stops at the first NUL. */
  function LocatorEncode(l: Locator): Bytes {
    assert (l + [0])[|l|] == 0;
    StrEncode(l + [0])
  }

  function LocatorListEncode(la: seq<Locator>): Bytes {
    if |la| == 0 then [] else LocatorEncode(la[0]) + LocatorListEncode(la[1..])
  }

  /** `_z_locators_encode`: the count as a zint, then each locator's string. */
  function LocatorsEncode(la: seq<Locator>): Bytes {
    ZintEncode(|la|) + LocatorListEncode(la)
  }

  /** One locator: a string, read up to its first NUL (`_z_str_decode`,
      then `_z_locator_from_str`). */
  function LocatorDecode(s: Bytes): Result<Decoded<Locator>> {
    var b :- BytesDecode(s);
    Ok(Decoded(UpToNul(b.value), b.rest))
  }

  lemma LocatorRoundTrip(l: Locator, rest: Bytes)
    requires NulFree(l)
    ensures LocatorDecode(LocatorEncode(l) + rest) == Ok(Decoded(l, rest))
  {
    StrValueOfTerminated(l);
    BytesRoundTrip(l, rest);
    UpToNulOfNulFree(l);
  }

  /** Decodes `k` items in a row with `dec`. */
  function ListDecode<T>(dec: Bytes -> Result<Decoded<T>>, s: Bytes, k: nat): (r: Result<Decoded<seq<T>>>)
    ensures r.Ok? ==> |r.value.value| == k
    decreases k
  {
    if k == 0 then Ok(Decoded([], s))
    else
      var l :- dec(s);
      var tail :- ListDecode(dec, l.rest, k - 1);
      Ok(Decoded([l.value] + tail.value, tail.rest))
  }

  /** Decodes `k` locator strings (the loop of `_z_locators_decode_na`). */
  function LocatorListDecode(s: Bytes, k: nat): (r: Result<Decoded<seq<Locator>>>)
    ensures r.Ok? ==> |r.value.value| == k
  {
    ListDecode(LocatorDecode, s, k)
  }

  /** `_z_locators_decode`: the count, then that many strings. */
  function LocatorsDecode(s: Bytes): (r: Result<Decoded<seq<Locator>>>) {
    var n :- ZintDecode(s);
    LocatorListDecode(n.rest, n.value)
  }

  lemma {:induction false} LocatorListRoundTrip(la: seq<Locator>, rest: Bytes)
    requires forall i :: 0 <= i < |la| ==> NulFree(la[i])
    ensures LocatorListDecode(LocatorListEncode(la) + rest, |la|) == Ok(Decoded(la, rest))
    decreases |la|
  {
    if |la| > 0 {
      var l := la[0];
      var tail := LocatorListEncode(la[1..]) + rest;
      assert LocatorListEncode(la) + rest == LocatorEncode(l) + tail;
      LocatorRoundTrip(l, tail);
      LocatorListRoundTrip(la[1..], rest);
      assert LocatorListDecode(tail, |la| - 1) == Ok(Decoded(la[1..], rest));
      assert [l] + la[1..] == la;
    } else {
      assert la == [] && LocatorListEncode(la) + rest == rest;
    }
  }

  /** Round trip for locators whose strings have no NUL in them. */
  lemma LocatorsRoundTrip(la: seq<Locator>, rest: Bytes)
    requires forall i :: 0 <= i < |la| ==> NulFree(la[i])
    ensures LocatorsDecode(LocatorsEncode(la) + rest) == Ok(Decoded(la, rest))
  {
    assert LocatorsEncode(la) + rest == ZintEncode(|la|) + (LocatorListEncode(la) + rest);
    ZintRoundTrip(|la|, LocatorListEncode(la) + rest);
    LocatorListRoundTrip(la, rest);
  }
}
