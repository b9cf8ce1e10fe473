/** The codec of message.c as it runs: every encoder appends to a write
    buffer and every decoder advances a read buffer and builds the decoded
    struct. Each method is proved to do exactly what the function of the
    same layout in modules Fields and Messages describes, so the round trips
    and flag properties proved there hold for the methods too. */
module MessageCodec {
  import opened Results
  import opened Wire
  import opened Buffers
  import opened Ext
  import opened ExtCodec
  import opened Fields
  import opened Messages

  /*------------------ payload ------------------*/

  /** `_z_payload_encode` */
  method EncodePayload(w: WBuf, pld: Bytes)
    modifies w
    ensures w.bytes == old(w.bytes) + BytesEncode(pld)
  {
    w.EncodeBytes(pld);
  }

  /** `_z_payload_decode` / `_na` */
  method DecodePayload(z: ZBuf) returns (r: Result<Bytes>)
    requires z.Valid()
    modifies z
    ensures z.Valid() && Pair(r, z.Rest()) == BytesDecode(old(z.Rest()))
  {
    r := z.DecodeBytes();
  }

  /*------------------ zenoh id ------------------*/

  /** `_z_id_encode_as_zbytes`: nothing is written for the all-zero id. */
  method EncodeIdAsZbytes(w: WBuf, id: Zid) returns (r: Status)
    modifies w
    ensures r.Ok? <==> IdCheck(id)
    ensures r.Ok? ==> w.bytes == old(w.bytes) + IdEncodeAsZbytes(id).value
    ensures r.Err? ==> r.error == ZenohUnknown && w.bytes == old(w.bytes)
  {
    var len := IdLen(id);
    if IdCheck(id) {
      NatByte(len);
      w.Write(len as byte);
      w.WriteBytes(id[..len]);
      r := OK;
    } else {
      r := Err(ZenohUnknown);
    }
  }

  /** `_z_id_decode_as_zbytes` */
  method DecodeIdAsZbytes(z: ZBuf) returns (r: Result<Zid>)
    requires z.Valid()
    modifies z
    ensures z.Valid() && Pair(r, z.Rest()) == IdDecodeAsZbytes(old(z.Rest()))
  {
    var len := z.DecodeUint8();
    if len.Err? {
      return Err(len.error);
    }
    if len.value as nat > ID_SIZE {
      return Err(DeserializationFailed);
    }
    var b := z.ReadBytes(len.value as nat);
    if b.Err? {
      return Err(b.error);
    }
    r := Ok(IdFromBytes(b.value));
  }

  /*------------------ timestamp ------------------*/

  /** `_z_uint64_decode` */
  method DecodeUint64(z: ZBuf) returns (r: Result<u64>)
    requires z.Valid()
    modifies z
    ensures z.Valid() && Pair(r, z.Rest()) == Uint64Decode(old(z.Rest()))
  {
    var v := z.DecodeZint();
    if v.Err? {
      return Err(v.error);
    }
    if v.value > U64_MAX {
      return Err(DeserializationFailed);
    }
    r := Ok(v.value);
  }

  /** `_z_timestamp_encode`: the time is written before the id is checked,
      so a timestamp with the all-zero id leaves the time behind. */
  method EncodeTimestamp(w: WBuf, ts: Timestamp) returns (r: Status)
    modifies w
    ensures r.Ok? <==> TimestampCheck(ts)
    ensures r.Ok? ==> w.bytes == old(w.bytes) + TimestampEncode(ts).value
    ensures r.Err? ==> r.error == ZenohUnknown && w.bytes == old(w.bytes) + Uint64Encode(ts.time)
  {
    ghost var w0 := w.bytes;
    w.EncodeZint(ts.time);
    r := EncodeIdAsZbytes(w, ts.id);
    if r.Ok? {
      Assoc(w0, Uint64Encode(ts.time), IdEncodeAsZbytes(ts.id).value);
    }
  }

  /** `_z_timestamp_decode` */
  method DecodeTimestamp(z: ZBuf) returns (r: Result<Timestamp>)
    requires z.Valid()
    modifies z
    ensures z.Valid() && Pair(r, z.Rest()) == TimestampDecode(old(z.Rest()))
  {
    var t := DecodeUint64(z);
    if t.Err? {
      return Err(t.error);
    }
    var id := DecodeIdAsZbytes(z);
    if id.Err? {
      return Err(id.error);
    }
    r := Ok(Timestamp(t.value, id.value));
  }

  /*------------------ key expression ------------------*/

  /** `_z_keyexpr_encode` */
  method EncodeKeyexpr(w: WBuf, hasSuffix: bool, ke: KeyExpr)
    requires hasSuffix ==> ke.suffix.Some? && IsCStr(ke.suffix.value)
    modifies w
    ensures w.bytes == old(w.bytes) + KeyexprEncode(hasSuffix, ke)
  {
    w.EncodeZint(ke.id);
    if hasSuffix {
      w.EncodeStr(ke.suffix.value);
    }
  }

  /** `_z_keyexpr_decode` */
  method DecodeKeyexpr(z: ZBuf, hasSuffix: bool) returns (r: Result<KeyExpr>)
    requires z.Valid()
    modifies z
    ensures z.Valid() && Pair(r, z.Rest()) == KeyexprDecode(old(z.Rest()), hasSuffix)
  {
    var id := z.DecodeZint();
    if id.Err? {
      return Err(id.error);
    }
    if hasSuffix {
      var str := z.DecodeStr();
      if str.Err? {
        return Err(str.error);
      }
      r := Ok(KeyExpr(id.value, false, false, Some(str.value)));
    } else {
      r := Ok(KeyExpr(id.value, false, false, None));
    }
  }

  /*------------------ locators ------------------*/

  /** `_z_locators_encode`: the count, then one string per locator. */
  method EncodeLocators(w: WBuf, la: seq<Locator>)
    modifies w
    ensures w.bytes == old(w.bytes) + LocatorsEncode(la)
  {
    w.EncodeZint(|la|);
    for i := 0 to |la|
      invariant w.bytes + LocatorListEncode(la[i..]) == old(w.bytes) + LocatorsEncode(la)
    {
      ghost var before := w.bytes;
      assert LocatorListEncode(la[i..]) == LocatorEncode(la[i]) + LocatorListEncode(la[i + 1..]) by {
        assert la[i..][0] == la[i] && la[i..][1..] == la[i + 1..];
      }
      var s := la[i] + [0];
      assert s[|la[i]|] == 0;
      w.EncodeStr(s);
      Assoc(before, LocatorEncode(la[i]), LocatorListEncode(la[i + 1..]));
    }
    assert la[|la|..] == [];
  }

  /** Puts the locators already read in front of what the rest decodes to. */
  function Prepend(acc: seq<Locator>, r: Result<Decoded<seq<Locator>>>): Result<Decoded<seq<Locator>>> {
    match r
    case Ok(d) => Ok(Decoded(acc + d.value, d.rest))
    case Err(e) => Err(e)
  }

  /** One turn of the decode loop: `l` is what decoding one locator from `s`
      gives, leaving `s'`. A locator that fails fails the whole list; one
      that decodes joins the ones already read. */
  lemma ListStep(acc: seq<Locator>, s: Bytes, k: nat, l: Result<Locator>, s': Bytes)
    requires k > 0 && Pair(l, s') == LocatorDecode(s)
    ensures l.Err? ==> Prepend(acc, LocatorListDecode(s, k)) == Err(l.error)
    ensures l.Ok? ==>
      Prepend(acc, LocatorListDecode(s, k)) == Prepend(acc + [l.value], LocatorListDecode(s', k - 1))
  {
    if l.Ok? {
      var tail := LocatorListDecode(s', k - 1);
      if tail.Ok? {
        assert acc + ([l.value] + tail.value.value) == acc + [l.value] + tail.value.value;
      }
    }
  }

  /** One locator: its string, up to the first NUL. */
  method DecodeLocator(z: ZBuf) returns (r: Result<Locator>)
    requires z.Valid()
    modifies z
    ensures z.Valid() && Pair(r, z.Rest()) == LocatorDecode(old(z.Rest()))
  {
    var str := z.DecodeStr();
    if str.Err? {
      return Err(str.error);
    }
    ghost var b := str.value[..|str.value| - 1];
    assert str.value == b + [0];
    StrValueUpToNul(b);
    r := Ok(StrValue(str.value));
  }

  /** One turn of the loop of `_z_locators_decode_na`: the next locator,
      appended to those already read. */
  method DecodeLocatorStep(z: ZBuf, acc: seq<Locator>, ghost k: nat) returns (r: Result<seq<Locator>>)
    requires z.Valid() && k > 0
    modifies z
    ensures z.Valid()
    ensures r.Err? ==> Prepend(acc, LocatorListDecode(old(z.Rest()), k)) == Err(r.error)
    ensures r.Ok? ==> Prepend(acc, LocatorListDecode(old(z.Rest()), k)) == Prepend(r.value, LocatorListDecode(z.Rest(), k - 1))
  {
    ghost var before := z.Rest();
    var l := DecodeLocator(z);
    ListStep(acc, before, k, l, z.Rest());
    if l.Err? {
      return Err(l.error);
    }
    r := Ok(acc + [l.value]);
  }

  /** The loop of `_z_locators_decode_na`: `n` strings, one per locator. */
  method DecodeLocatorList(z: ZBuf, n: nat) returns (r: Result<seq<Locator>>)
    requires z.Valid()
    modifies z
    ensures z.Valid() && Pair(r, z.Rest()) == LocatorListDecode(old(z.Rest()), n)
  {
    ghost var goal := LocatorListDecode(z.Rest(), n);
    var acc: seq<Locator> := [];
    var k := n;
    PrependNothing(goal);
    while k > 0
      invariant z.Valid()
      invariant Prepend(acc, LocatorListDecode(z.Rest(), k)) == goal
    {
      var step := DecodeLocatorStep(z, acc, k);
      if step.Err? {
        return Err(step.error);
      }
      acc, k := step.value, k - 1;
    }
    assert LocatorListDecode(z.Rest(), 0) == Ok(Decoded([], z.Rest()));
    assert acc + [] == acc;
    r := Ok(acc);
  }

  lemma PrependNothing(r: Result<Decoded<seq<Locator>>>)
    ensures Prepend([], r) == r
  {
    if r.Ok? {
      assert [] + r.value.value == r.value.value;
    }
  }

  /** `_z_locators_decode` / `_na`: the count, then that many strings. */
  method DecodeLocators(z: ZBuf) returns (r: Result<seq<Locator>>)
    requires z.Valid()
    modifies z
    ensures z.Valid() && Pair(r, z.Rest()) == LocatorsDecode(old(z.Rest()))
  {
    var len := z.DecodeZint();
    if len.Err? {
      return Err(len.error);
    }
    r := DecodeLocatorList(z, len.value);
  }


  /*------------------ source info ------------------*/

  /** A zint that must fit in 32 bits. */
  method DecodeU32(z: ZBuf) returns (r: Result<u32>)
    requires z.Valid()
    modifies z
    ensures z.Valid() && Pair(r, z.Rest()) == U32Decode(old(z.Rest()))
  {
    var v := z.DecodeZint();
    if v.Err? {
      return Err(v.error);
    }
    if v.value > U32_MAX {
      return Err(DeserializationFailed);
    }
    r := Ok(v.value);
  }

  /** `_z_source_info_decode` into the source info `into` the message
      already holds: the id bytes read overwrite the front of its id. */
  method DecodeSourceInfo(into: SourceInfo, z: ZBuf) returns (r: Result<SourceInfo>)
    requires z.Valid()
    modifies z
    ensures z.Valid() && Pair(r, z.Rest()) == SourceInfoDecode(into, old(z.Rest()))
  {
    var h := z.DecodeUint8();
    if h.Err? {
      return Err(h.error);
    }
    var zidlen := ZidNibble(h.value);
    if z.Len() < zidlen {
      return Err(DeserializationFailed);
    }
    var idb := z.ReadBytes(zidlen);
    var e := DecodeU32(z);
    if e.Err? {
      return Err(e.error);
    }
    var sn := DecodeU32(z);
    if sn.Err? {
      return Err(sn.error);
    }
    r := Ok(SourceInfo(IdOverwrite(into.id, idb.value), e.value, sn.value));
  }

  /** `_z_source_info_encode` */
  method EncodeSourceInfo(w: WBuf, info: SourceInfo)
    modifies w
    ensures w.bytes == old(w.bytes) + SourceInfoEncode(info)
  {
    var zidlen := IdLen(info.id);
    ghost var w0 := w.bytes;
    w.Write(ZidLenNibble(zidlen));
    w.WriteBytes(info.id[..zidlen]);
    ghost var acc := [ZidLenNibble(zidlen)] + info.id[..zidlen];
    Assoc(w0, [ZidLenNibble(zidlen)], info.id[..zidlen]);
    w.EncodeZint(info.entityId);
    Assoc(w0, acc, ZintEncode(info.entityId));
    acc := acc + ZintEncode(info.entityId);
    w.EncodeZint(info.sourceSn);
    Assoc(w0, acc, ZintEncode(info.sourceSn));
  }

  /** The source-info extension header, then the source info itself. */
  method EncodeSourceInfoExt(w: WBuf, info: SourceInfo, more: bool)
    modifies w
    ensures w.bytes == old(w.bytes) + SourceInfoExt(info, more)
  {
    ghost var w0 := w.bytes;
    w.Write(EXT_SOURCE_INFO | Flag(more, FLAG_Z_Z));
    EncodeSourceInfo(w, info);
    Assoc(w0, [EXT_SOURCE_INFO | Flag(more, FLAG_Z_Z)], SourceInfoEncode(info));
  }

  /*------------------ values ------------------*/

  /** An encoding prefix and suffix, then a payload, as the query body and
      err value extensions write them. */
  method EncodeValue(w: WBuf, v: Value)
    modifies w
    ensures w.bytes == old(w.bytes) + ValueEncode(v)
  {
    ghost var w0 := w.bytes;
    w.EncodeZint(v.encoding.prefix);
    w.EncodeBytes(v.encoding.suffix);
    Assoc(w0, ZintEncode(v.encoding.prefix), BytesEncode(v.encoding.suffix));
    w.EncodeBytes(v.payload);
    Assoc(w0, EncodingEncode(v.encoding), BytesEncode(v.payload));
  }

  /** The timestamp field when the timestamp is valid. */
  method EncodeTimestampField(w: WBuf, ts: Timestamp)
    modifies w
    ensures w.bytes == old(w.bytes) + TimestampField(ts)
  {
    if TimestampCheck(ts) {
      var st := EncodeTimestamp(w, ts);
    }
  }

  /** A timestamp when the flag says one is there, the null one otherwise. */
  method DecodeTimestampIf(z: ZBuf, present: bool) returns (r: Result<Timestamp>)
    requires z.Valid()
    modifies z
    ensures z.Valid() && Pair(r, z.Rest()) == TimestampIf(old(z.Rest()), present)
  {
    if present {
      r := DecodeTimestamp(z);
    } else {
      r := Ok(NullTimestamp);
    }
  }

  /** The extension chain when the Z flag says there is one. */
  method DecodeExtsIf<C>(z: ZBuf, present: bool, handler: (MsgExt, C) -> Result<C>, ctx: C) returns (r: Result<C>)
    requires z.Valid()
    modifies z
    ensures z.Valid() && Pair(r, z.Rest()) == ExtsIf(old(z.Rest()), present, handler, ctx)
  {
    if present {
      r := DecodeIter(z, handler, ctx);
    } else {
      r := Ok(ctx);
    }
  }

  /*------------------ Put / Del ------------------*/

  /** `_z_push_body_encode` */
  method EncodePushBody(w: WBuf, b: PushBody)
    modifies w
    ensures w.bytes == old(w.bytes) + PushBodyEncode(b)
  {
    var hasSourceInfo := IdCheck(b.commons.sourceInfo.id);
    var hasEncoding := b.Put? && HasEncoding(b.encoding);
    ghost var w0 := w.bytes;
    w.Write(PushHeader(b));
    ghost var acc: Bytes := [PushHeader(b)];
    EncodeTimestampField(w, b.commons.timestamp);
    Assoc(w0, acc, TimestampField(b.commons.timestamp));
    acc := acc + TimestampField(b.commons.timestamp);
    ghost var piece: Bytes := if hasEncoding then EncodingEncode(b.encoding) else [];
    if hasEncoding {
      ghost var before := w.bytes;
      w.EncodeZint(b.encoding.prefix);
      w.EncodeBytes(b.encoding.suffix);
      Assoc(before, ZintEncode(b.encoding.prefix), BytesEncode(b.encoding.suffix));
    }
    Assoc(w0, acc, piece);
    acc := acc + piece;
    assert w.bytes == w0 + acc;
    piece := if hasSourceInfo then SourceInfoExt(b.commons.sourceInfo, false) else [];
    if hasSourceInfo {
      EncodeSourceInfoExt(w, b.commons.sourceInfo, false);
    }
    Assoc(w0, acc, piece);
    acc := acc + piece;
    assert w.bytes == w0 + acc;
    piece := if b.Put? then BytesEncode(b.payload) else [];
    if b.Put? {
      w.EncodeBytes(b.payload);
    }
    Assoc(w0, acc, piece);
    assert acc + piece == PushBodyEncode(b);
  }

  /** `_z_push_body_decode` */
  method DecodePushBody(z: ZBuf, header: byte) returns (r: Result<PushBody>)
    requires z.Valid()
    modifies z
    ensures z.Valid() && Pair(r, z.Rest()) == PushBodyDecode(old(z.Rest()), header)
  {
    if Mid(header) == MID_PUT {
      var ts := DecodeTimestampIf(z, Has(header, FLAG_P_T));
      if ts.Err? {
        return Err(ts.error);
      }
      var prefix: nat := ENCODING_PREFIX_EMPTY;
      if Has(header, FLAG_P_E) {
        var p := z.DecodeZint();
        if p.Err? {
          return Err(p.error);
        }
        prefix := p.value;
      }
      var b := Put(Commons(ts.value, NullSourceInfo), WireEncoding(prefix, []), []);
      var ex := DecodeExtsIf(z, Has(header, FLAG_Z_Z), PushExtHandler, b);
      if ex.Err? {
        return Err(ex.error);
      }
      var pl := z.DecodeBytes();
      if pl.Err? {
        return Err(pl.error);
      }
      r := Ok(Put(Commons(ts.value, ex.value.commons.sourceInfo), WireEncoding(prefix, []), pl.value));
    } else if Mid(header) == MID_DEL {
      var ts := DecodeTimestampIf(z, Has(header, FLAG_D_T));
      if ts.Err? {
        return Err(ts.error);
      }
      var ex := DecodeExtsIf(z, Has(header, FLAG_Z_Z), PushExtHandler, Del(Commons(ts.value, NullSourceInfo)));
      if ex.Err? {
        return Err(ex.error);
      }
      r := Ok(Del(Commons(ts.value, ex.value.commons.sourceInfo)));
    } else {
      r := Err(ZenohUnknown);
    }
  }

  /** `_z_put_encode` */
  method EncodePut(w: WBuf, commons: Commons, encoding: WireEncoding, payload: Bytes)
    modifies w
    ensures w.bytes == old(w.bytes) + PushBodyEncode(Put(commons, encoding, payload))
  {
    EncodePushBody(w, Put(commons, encoding, payload));
  }

  /** `_z_put_decode`: the caller has read a Put header. */
  method DecodePut(z: ZBuf, header: byte) returns (r: Result<PushBody>)
    requires z.Valid() && Mid(header) == MID_PUT
    modifies z
    ensures z.Valid() && Pair(r, z.Rest()) == PushBodyDecode(old(z.Rest()), header)
    ensures r.Ok? ==> r.value.Put?
  {
    r := DecodePushBody(z, header);
  }

  /** `_z_del_encode` */
  method EncodeDel(w: WBuf, commons: Commons)
    modifies w
    ensures w.bytes == old(w.bytes) + PushBodyEncode(Del(commons))
  {
    EncodePushBody(w, Del(commons));
  }

  /** `_z_del_decode`: the caller has read a Del header. */
  method DecodeDel(z: ZBuf, header: byte) returns (r: Result<PushBody>)
    requires z.Valid() && Mid(header) == MID_DEL
    modifies z
    ensures z.Valid() && Pair(r, z.Rest()) == PushBodyDecode(old(z.Rest()), header)
    ensures r.Ok? ==> r.value.Del?
  {
    r := DecodePushBody(z, header);
  }

  /*------------------ Query ------------------*/

  /** `_z_query_encode` */
  method EncodeQuery(w: WBuf, q: Query)
    modifies w
    ensures w.bytes == old(w.bytes) + QueryEncode(q)
  {
    var cons := QueryNeedsConsolidation(q);
    var info := QueryNeedsInfo(q);
    ghost var w0 := w.bytes;
    w.Write(QueryHeader(q));
    ghost var acc: Bytes := [QueryHeader(q)];
    ghost var piece: Bytes := if HasParameters(q) then BytesEncode(q.parameters) else [];
    if HasParameters(q) {
      w.EncodeBytes(q.parameters);
    }
    Assoc(w0, acc, piece);
    acc := acc + piece;
    assert w.bytes == w0 + acc;
    piece := if QueryNeedsBody(q) then [EXT_QUERY_BODY | Flag(cons || info, FLAG_Z_Z)] + ValueEncode(q.value) else [];
    if QueryNeedsBody(q) {
      ghost var before := w.bytes;
      w.Write(EXT_QUERY_BODY | Flag(cons || info, FLAG_Z_Z));
      EncodeValue(w, q.value);
      Assoc(before, [EXT_QUERY_BODY | Flag(cons || info, FLAG_Z_Z)], ValueEncode(q.value));
    }
    Assoc(w0, acc, piece);
    acc := acc + piece;
    assert w.bytes == w0 + acc;
    piece := if cons then [EXT_CONSOLIDATION | Flag(info, FLAG_Z_Z)] + ZintEncode(ConsolidationWire(q.consolidation)) else [];
    if cons {
      ghost var before := w.bytes;
      w.Write(EXT_CONSOLIDATION | Flag(info, FLAG_Z_Z));
      w.EncodeZint(ConsolidationWire(q.consolidation));
      Assoc(before, [EXT_CONSOLIDATION | Flag(info, FLAG_Z_Z)], ZintEncode(ConsolidationWire(q.consolidation)));
    }
    Assoc(w0, acc, piece);
    acc := acc + piece;
    assert w.bytes == w0 + acc;
    piece := if info then SourceInfoEncode(q.info) else [];
    if info {
      EncodeSourceInfo(w, q.info);
    }
    Assoc(w0, acc, piece);
    assert acc + piece == QueryEncode(q);
  }

  /** `_z_query_decode` */
  method DecodeQuery(z: ZBuf, header: byte) returns (r: Result<Query>)
    requires z.Valid()
    modifies z
    ensures z.Valid() && Pair(r, z.Rest()) == QueryDecode(old(z.Rest()), header)
  {
    var params: Bytes := [];
    if Has(header, FLAG_Q_P) {
      var p := z.DecodeBytes();
      if p.Err? {
        return Err(p.error);
      }
      params := p.value;
    }
    var ex := DecodeIter(z, QueryExtHandler, NullQuery.(parameters := params));
    if ex.Err? {
      return Err(ex.error);
    }
    r := Ok(Query(params, ex.value.value, ex.value.consolidation, ex.value.info));
  }

  /*------------------ Reply ------------------*/

  /** `_z_reply_encode` */
  method EncodeReply(w: WBuf, m: Reply)
    modifies w
    ensures w.bytes == old(w.bytes) + ReplyEncode(m)
  {
    var cons := m.consolidation != CONSOLIDATION_AUTO;
    var hasEncoding := HasEncoding(m.value.encoding);
    var hasSourceInfo := IdCheck(m.sourceInfo.id);
    ghost var w0 := w.bytes;
    w.Write(ReplyHeader(m));
    ghost var acc: Bytes := [ReplyHeader(m)];
    EncodeTimestampField(w, m.timestamp);
    Assoc(w0, acc, TimestampField(m.timestamp));
    acc := acc + TimestampField(m.timestamp);
    ghost var piece: Bytes := if hasEncoding then EncodingEncode(m.value.encoding) else [];
    if hasEncoding {
      ghost var before := w.bytes;
      w.EncodeZint(m.value.encoding.prefix);
      w.EncodeBytes(m.value.encoding.suffix);
      Assoc(before, ZintEncode(m.value.encoding.prefix), BytesEncode(m.value.encoding.suffix));
    }
    Assoc(w0, acc, piece);
    acc := acc + piece;
    assert w.bytes == w0 + acc;
    piece := if hasSourceInfo then SourceInfoExt(m.sourceInfo, cons) else [];
    if hasSourceInfo {
      EncodeSourceInfoExt(w, m.sourceInfo, cons);
    }
    Assoc(w0, acc, piece);
    acc := acc + piece;
    assert w.bytes == w0 + acc;
    piece := if cons then [EXT_CONSOLIDATION] + ZintEncode(ConsolidationWire(m.consolidation)) else [];
    if cons {
      ghost var before := w.bytes;
      w.Write(EXT_CONSOLIDATION);
      w.EncodeZint(ConsolidationWire(m.consolidation));
      Assoc(before, [EXT_CONSOLIDATION], ZintEncode(ConsolidationWire(m.consolidation)));
    }
    Assoc(w0, acc, piece);
    acc := acc + piece;
    assert w.bytes == w0 + acc;
    w.EncodeBytes(m.value.payload);
    Assoc(w0, acc, BytesEncode(m.value.payload));
    assert acc + BytesEncode(m.value.payload) == ReplyEncode(m);
  }

  /** `_z_reply_decode` */
  method DecodeReply(z: ZBuf, header: byte) returns (r: Result<Reply>)
    requires z.Valid()
    modifies z
    ensures z.Valid() && Pair(r, z.Rest()) == ReplyDecode(old(z.Rest()), header)
  {
    var ts := DecodeTimestampIf(z, Has(header, FLAG_R_T));
    if ts.Err? {
      return Err(ts.error);
    }
    var enc := EmptyEncoding;
    if Has(header, FLAG_R_E) {
      var prefix := z.DecodeZint();
      if prefix.Err? {
        return Err(prefix.error);
      }
      var suffix := z.DecodeBytes();
      if suffix.Err? {
        return Err(suffix.error);
      }
      enc := WireEncoding(prefix.value, suffix.value);
    }
    var ex := DecodeIter(z, ReplyExtHandler, NullReply.(timestamp := ts.value, value := Value(enc, [])));
    if ex.Err? {
      return Err(ex.error);
    }
    var pl := z.DecodeBytes();
    if pl.Err? {
      return Err(pl.error);
    }
    r := Ok(Reply(ts.value, Value(enc, pl.value), ex.value.consolidation, ex.value.sourceInfo));
  }

  /*------------------ Err ------------------*/

  /** `_z_err_encode` */
  method EncodeErr(w: WBuf, m: ErrorMsg)
    modifies w
    ensures w.bytes == old(w.bytes) + ErrEncode(m)
  {
    var hasSourceInfo := IdCheck(m.sourceInfo.id);
    var hasValue := m.extValue.Some?;
    ghost var w0 := w.bytes;
    w.Write(ErrHeader(m));
    ghost var acc: Bytes := [ErrHeader(m)];
    w.EncodeZint(m.code);
    Assoc(w0, acc, ZintEncode(m.code));
    acc := acc + ZintEncode(m.code);
    EncodeTimestampField(w, m.timestamp);
    Assoc(w0, acc, TimestampField(m.timestamp));
    acc := acc + TimestampField(m.timestamp);
    ghost var piece: Bytes := if hasSourceInfo then SourceInfoExt(m.sourceInfo, hasValue) else [];
    if hasSourceInfo {
      EncodeSourceInfoExt(w, m.sourceInfo, hasValue);
    }
    Assoc(w0, acc, piece);
    acc := acc + piece;
    assert w.bytes == w0 + acc;
    piece := if hasValue then [EXT_ERR_VALUE] + ValueEncode(m.extValue.value) else [];
    if hasValue {
      ghost var before := w.bytes;
      w.Write(EXT_ERR_VALUE);
      EncodeValue(w, m.extValue.value);
      Assoc(before, [EXT_ERR_VALUE], ValueEncode(m.extValue.value));
    }
    Assoc(w0, acc, piece);
    assert acc + piece == ErrEncode(m);
  }

  /** `_z_err_decode` */
  method DecodeErr(z: ZBuf, header: byte) returns (r: Result<ErrorMsg>)
    requires z.Valid()
    modifies z
    ensures z.Valid() && Pair(r, z.Rest()) == ErrDecode(old(z.Rest()), header)
  {
    var code := z.DecodeZint();
    if code.Err? {
      return Err(code.error);
    }
    if code.value > U16_MAX {
      return Err(DeserializationFailed);
    }
    var isInfrastructure := Has(header, FLAG_E_I);
    var ts := DecodeTimestampIf(z, Has(header, FLAG_E_T));
    if ts.Err? {
      return Err(ts.error);
    }
    var m := NullErrorMsg.(code := code.value, isInfrastructure := isInfrastructure, timestamp := ts.value);
    var ex := DecodeExtsIf(z, Has(header, FLAG_Z_Z), ErrExtHandler, m);
    if ex.Err? {
      return Err(ex.error);
    }
    r := Ok(ErrorMsg(code.value, isInfrastructure, ts.value, ex.value.sourceInfo, ex.value.extValue));
  }

  /*------------------ Ack ------------------*/

  /** `_z_ack_encode` */
  method EncodeAck(w: WBuf, a: Ack)
    modifies w
    ensures w.bytes == old(w.bytes) + AckEncode(a)
  {
    ghost var w0 := w.bytes;
    w.Write(AckHeader(a));
    EncodeTimestampField(w, a.timestamp);
    Assoc(w0, [AckHeader(a)], TimestampField(a.timestamp));
    ghost var acc: Bytes := [AckHeader(a)] + TimestampField(a.timestamp);
    ghost var piece: Bytes := if IdCheck(a.sourceInfo.id) then SourceInfoExt(a.sourceInfo, false) else [];
    if IdCheck(a.sourceInfo.id) {
      EncodeSourceInfoExt(w, a.sourceInfo, false);
    }
    Assoc(w0, acc, piece);
  }

  /** `_z_ack_decode` */
  method DecodeAck(z: ZBuf, header: byte) returns (r: Result<Ack>)
    requires z.Valid()
    modifies z
    ensures z.Valid() && Pair(r, z.Rest()) == AckDecode(old(z.Rest()), header)
  {
    var ts := DecodeTimestampIf(z, Has(header, FLAG_A_T));
    if ts.Err? {
      return Err(ts.error);
    }
    var ex := DecodeExtsIf(z, Has(header, FLAG_Z_Z), AckExtHandler, Ack(ts.value, NullSourceInfo));
    if ex.Err? {
      return Err(ex.error);
    }
    r := Ok(Ack(ts.value, ex.value.sourceInfo));
  }

  /*------------------ Pull ------------------*/

  /** `_z_pull_encode` */
  method EncodePull(w: WBuf, header: byte, p: Pull)
    modifies w
    ensures w.bytes == old(w.bytes) + PullEncode(header, p)
  {
    if IdCheck(p.sourceInfo.id) {
      EncodeSourceInfoExt(w, p.sourceInfo, false);
    }
  }

  /** `_z_pull_decode` */
  method DecodePull(z: ZBuf, header: byte) returns (r: Result<Pull>)
    requires z.Valid()
    modifies z
    ensures z.Valid() && Pair(r, z.Rest()) == PullDecode(old(z.Rest()), header)
  {
    r := DecodeExtsIf(z, Has(header, FLAG_Z_Z), PullExtHandler, Pull(NullSourceInfo));
  }
}
