/** Zenoh message bodies and their wire layout, as `message.c` writes and
    reads them: a header byte whose low five bits are the message id and
    whose high bits gate the optional fields, the fields in a fixed order,
    then a chain of extensions. Each decoder takes the header (already read
    by its caller) and the bytes after it, and starts from a zero-initialised
    message. Each message has its extension handler, which folds one
    extension into the message being decoded. */
module Messages {
  import opened Results
  import opened Wire
  import opened Ext
  import opened Fields

  /*------------------ ids and flags ------------------*/

  const MID_PUT: byte := 0x01
  const MID_DEL: byte := 0x02
  const MID_QUERY: byte := 0x03
  const MID_REPLY: byte := 0x04
  const MID_ERR: byte := 0x05
  const MID_ACK: byte := 0x06
  const MID_PULL: byte := 0x07

  /** `_Z_FLAG_Z_Z`: extensions follow. */
  const FLAG_Z_Z: byte := 0x80
  const FLAG_P_T: byte := 0x20
  const FLAG_P_E: byte := 0x40
  const FLAG_D_T: byte := 0x20
  const FLAG_Q_P: byte := 0x20
  const FLAG_R_T: byte := 0x20
  const FLAG_R_E: byte := 0x40
  const FLAG_E_T: byte := 0x20
  const FLAG_E_I: byte := 0x40
  const FLAG_A_T: byte := 0x20

  /** Extension ids (kind | mandatory flag | id). */
  const EXT_SOURCE_INFO: byte := 0x41      // ZBUF | 0x01
  const EXT_CONSOLIDATION: byte := 0x32    // ZINT | M | 0x02
  const EXT_QUERY_BODY: byte := 0x43       // ZBUF | 0x03
  const EXT_ERR_VALUE: byte := 0x42        // ZBUF | 0x02

  const ENCODING_PREFIX_EMPTY: nat := 0
  /** `Z_CONSOLIDATION_MODE_AUTO`; the other modes are 0, 1 and 2. */
  const CONSOLIDATION_AUTO: int := -1

  predicate Has(h: byte, flag: byte) {
    h & flag != 0
  }

  function Flag(cond: bool, f: byte): byte {
    if cond then f else 0
  }

  /** A header byte: a message id and the three flag bits above it. */
  function MakeHeader(mid: byte, f20: bool, f40: bool, z: bool): (h: byte)
    requires mid <= MID_MASK
    ensures Mid(h) == mid
    ensures Has(h, 0x20) == f20 && Has(h, 0x40) == f40 && Has(h, FLAG_Z_Z) == z
  {
    mid | Flag(f20, 0x20) | Flag(f40, 0x40) | Flag(z, FLAG_Z_Z)
  }

  /*------------------ values ------------------*/

  /** The encoding of a payload as this codec carries it: a prefix number
      and a suffix string. */
  datatype WireEncoding = WireEncoding(prefix: nat, suffix: Bytes)

  const EmptyEncoding: WireEncoding := WireEncoding(ENCODING_PREFIX_EMPTY, [])

  predicate HasEncoding(e: WireEncoding) {
    e.prefix != ENCODING_PREFIX_EMPTY || |e.suffix| > 0
  }

  datatype Value = Value(encoding: WireEncoding, payload: Bytes)

  const EmptyValue: Value := Value(EmptyEncoding, [])

  /** `_z_encoding_prefix_encode` (a zint) and the suffix slice. */
  function EncodingEncode(e: WireEncoding): Bytes {
    ZintEncode(e.prefix) + BytesEncode(e.suffix)
  }

  function EncodingDecode(s: Bytes): Result<Decoded<WireEncoding>> {
    var p :- ZintDecode(s);
    var sfx :- BytesDecode(p.rest);
    Ok(Decoded(WireEncoding(p.value, sfx.value), sfx.rest))
  }

  lemma EncodingRoundTrip(e: WireEncoding, rest: Bytes)
    ensures EncodingDecode(EncodingEncode(e) + rest) == Ok(Decoded(e, rest))
  {
    assert EncodingEncode(e) + rest == ZintEncode(e.prefix) + (BytesEncode(e.suffix) + rest);
    ZintRoundTrip(e.prefix, BytesEncode(e.suffix) + rest);
    BytesRoundTrip(e.suffix, rest);
  }

  /** A value as the query and err payload extensions lay it out. */
  function ValueEncode(v: Value): Bytes {
    EncodingEncode(v.encoding) + BytesEncode(v.payload)
  }

  function ValueDecode(s: Bytes): Result<Decoded<Value>> {
    var e :- EncodingDecode(s);
    var p :- BytesDecode(e.rest);
    Ok(Decoded(Value(e.value, p.value), p.rest))
  }

  lemma ValueRoundTrip(v: Value, rest: Bytes)
    ensures ValueDecode(ValueEncode(v) + rest) == Ok(Decoded(v, rest))
  {
    assert ValueEncode(v) + rest == EncodingEncode(v.encoding) + (BytesEncode(v.payload) + rest);
    EncodingRoundTrip(v.encoding, BytesEncode(v.payload) + rest);
    BytesRoundTrip(v.payload, rest);
  }

  /*------------------ shared optional fields ------------------*/

  /** The timestamp field, written only for a valid timestamp. */
  function TimestampField(ts: Timestamp): Bytes {
    if TimestampCheck(ts) then TimestampEncode(ts).value else []
  }

  /** Reads a timestamp when the flag says one is there. */
  function TimestampIf(s: Bytes, present: bool): Result<Decoded<Timestamp>> {
    if present then TimestampDecode(s) else Ok(Decoded(NullTimestamp, s))
  }

  /** A timestamp that survives the trip: a valid one, or the null one that
      the decoder starts from. */
  predicate CanonicalTimestamp(ts: Timestamp) {
    TimestampCheck(ts) || ts == NullTimestamp
  }

  lemma TimestampFieldRoundTrip(ts: Timestamp, rest: Bytes)
    requires CanonicalTimestamp(ts)
    ensures TimestampIf(TimestampField(ts) + rest, TimestampCheck(ts)) == Ok(Decoded(ts, rest))
  {
    if TimestampCheck(ts) {
      TimestampRoundTrip(ts, rest);
    } else {
      assert TimestampField(ts) + rest == rest;
    }
  }

  /** A source-info extension as the encoders write it: the zbuf-kind header
      and then the raw source info, with no length in front. */
  function SourceInfoExt(info: SourceInfo, more: bool): Bytes {
    [EXT_SOURCE_INFO | Flag(more, FLAG_Z_Z)] + SourceInfoEncode(info)
  }

  /** Runs the extension chain when the Z flag says there is one. */
  function ExtsIf<C>(s: Bytes, present: bool, handler: (MsgExt, C) -> Result<C>, ctx: C): Result<Decoded<C>> {
    if present then ExtDecodeIter(s, handler, ctx) else Ok(Decoded(ctx, s))
  }

  /*------------------ Put / Del (_z_push_body_t) ------------------*/

  datatype Commons = Commons(timestamp: Timestamp, sourceInfo: SourceInfo)

  const NullCommons: Commons := Commons(NullTimestamp, NullSourceInfo)

  datatype PushBody =
    | Put(commons: Commons, encoding: WireEncoding, payload: Bytes)
    | Del(commons: Commons)

  /** The header of `_z_push_body_encode`. */
  function PushHeader(b: PushBody): (h: byte)
    ensures Mid(h) == (if b.Put? then MID_PUT else MID_DEL)
    ensures Has(h, FLAG_Z_Z) <==> IdCheck(b.commons.sourceInfo.id)
    ensures Has(h, FLAG_P_T) <==> TimestampCheck(b.commons.timestamp)
    ensures Has(h, FLAG_P_E) <==> b.Put? && HasEncoding(b.encoding)
  {
    MakeHeader(if b.Put? then MID_PUT else MID_DEL, TimestampCheck(b.commons.timestamp),
               b.Put? && HasEncoding(b.encoding), IdCheck(b.commons.sourceInfo.id))
  }

  /** `_z_push_body_encode` (and `_z_put_encode`, `_z_del_encode`): header,
      timestamp, encoding (Put), source-info extension, payload (Put). */
  function PushBodyEncode(b: PushBody): (r: Bytes)
    ensures |r| > 0 && r[0] == PushHeader(b)
  {
    [PushHeader(b)]
    + TimestampField(b.commons.timestamp)
    + (if b.Put? && HasEncoding(b.encoding) then EncodingEncode(b.encoding) else [])
    + (if IdCheck(b.commons.sourceInfo.id) then SourceInfoExt(b.commons.sourceInfo, false) else [])
    + (if b.Put? then BytesEncode(b.payload) else [])
  }

  /** `_z_push_body_decode_extensions`: source info is decoded from the
      extension's bytes; any other extension is an error if mandatory and
      ignored otherwise. */
  function PushExtHandler(e: MsgExt, b: PushBody): (r: Result<PushBody>)
    ensures FullId(e.header) != EXT_SOURCE_INFO ==>
            r == if IsMandatory(e.header) then Err(ExtensionMandatoryAndUnknown) else Ok(b)
    ensures r.Ok? ==> r.value == b.(commons := b.commons.(sourceInfo := r.value.commons.sourceInfo))
  {
    if FullId(e.header) == EXT_SOURCE_INFO then
      var si :- SourceInfoDecode(b.commons.sourceInfo, ZbufBytes(e));
      Ok(b.(commons := b.commons.(sourceInfo := si.value)))
    else if IsMandatory(e.header) then Err(ExtensionMandatoryAndUnknown)
    else Ok(b)
  }

  /** `_z_push_body_decode`: by message id, the flagged fields in encoder
      order. The Put branch reads the encoding prefix but not its suffix. */
  function PushBodyDecode(s: Bytes, header: byte): (r: Result<Decoded<PushBody>>)
    ensures Mid(header) != MID_PUT && Mid(header) != MID_DEL ==> r == Err(ZenohUnknown)
    ensures r.Ok? ==> (r.value.value.Put? <==> Mid(header) == MID_PUT)
    ensures r.Ok? && !Has(header, FLAG_P_T) ==> r.value.value.commons.timestamp == NullTimestamp
    ensures r.Ok? && !Has(header, FLAG_Z_Z) ==> r.value.value.commons.sourceInfo == NullSourceInfo
  {
    if Mid(header) == MID_PUT then
      var ts :- TimestampIf(s, Has(header, FLAG_P_T));
      var prefix :- if Has(header, FLAG_P_E) then ZintDecode(ts.rest)
                    else Ok(Decoded(ENCODING_PREFIX_EMPTY, ts.rest));
      var b := Put(Commons(ts.value, NullSourceInfo), WireEncoding(prefix.value, []), []);
      var ex :- ExtsIf(prefix.rest, Has(header, FLAG_Z_Z), PushExtHandler, b);
      var pl :- BytesDecode(ex.rest);
      Ok(Decoded(Put(Commons(ts.value, ex.value.commons.sourceInfo), WireEncoding(prefix.value, []), pl.value), pl.rest))
    else if Mid(header) == MID_DEL then
      var ts :- TimestampIf(s, Has(header, FLAG_D_T));
      var ex :- ExtsIf(ts.rest, Has(header, FLAG_Z_Z), PushExtHandler, Del(Commons(ts.value, NullSourceInfo)));
      Ok(Decoded(Del(Commons(ts.value, ex.value.commons.sourceInfo)), ex.rest))
    else Err(ZenohUnknown)
  }

  /** The bodies whose trip through the codec is exact: no encoding (its
      suffix is not read back), no source info (its extension has no length
      in front) and a timestamp that is valid or null. */
  predicate PushRoundTrips(b: PushBody) {
    CanonicalTimestamp(b.commons.timestamp)
    && b.commons.sourceInfo == NullSourceInfo
    && (b.Put? ==> b.encoding == EmptyEncoding)
  }

  /** The bytes of a body without encoding or source info. */
  lemma PushLayout(b: PushBody)
    requires PushRoundTrips(b)
    ensures PushBodyEncode(b) == [PushHeader(b)] + (TimestampField(b.commons.timestamp)
                                 + (if b.Put? then BytesEncode(b.payload) else []))
  {
    assert !IdCheck(NullSourceInfo.id) by { IdCheckNonZero(NullSourceInfo.id); }
  }

  /** What the decoder does with a Put or Del header that flags neither an
      encoding nor extensions. */
  lemma PushDecodePlain(s: Bytes, h: byte)
    requires Mid(h) == MID_PUT || Mid(h) == MID_DEL
    requires !Has(h, FLAG_P_E) && !Has(h, FLAG_Z_Z)
    ensures PushBodyDecode(s, h)
            == (var ts :- TimestampIf(s, Has(h, FLAG_P_T));
                if Mid(h) == MID_DEL then Ok(Decoded(Del(Commons(ts.value, NullSourceInfo)), ts.rest))
                else
                  var pl :- BytesDecode(ts.rest);
                  Ok(Decoded(Put(Commons(ts.value, NullSourceInfo), EmptyEncoding, pl.value), pl.rest)))
  {
  }

  lemma PushBodyRoundTrip(b: PushBody, rest: Bytes)
    requires PushRoundTrips(b)
    ensures var s := PushBodyEncode(b) + rest;
            PushBodyDecode(s[1..], s[0]) == Ok(Decoded(b, rest))
  {
    var s := PushBodyEncode(b) + rest;
    var h := PushHeader(b);
    var ts := b.commons.timestamp;
    var payload := if b.Put? then BytesEncode(b.payload) else [];
    var tail := payload + rest;
    PushLayout(b);
    Behead2(h, TimestampField(ts), payload, rest);
    TimestampFieldRoundTrip(ts, tail);
    PushDecodePlain(s[1..], h);
    if b.Put? {
      BytesRoundTrip(b.payload, rest);
    } else {
      assert tail == rest;
    }
  }

  /*------------------ Query (_z_msg_query_t) ------------------*/

  datatype Query = Query(parameters: Bytes, value: Value, consolidation: int, info: SourceInfo)

  /** `_z_msg_query_required_extensions` (its C body is not part of this
      model): a body when there is an encoding or a payload, consolidation
      when it is not AUTO, source info when its id is valid. */
  predicate QueryNeedsBody(q: Query) {
    HasEncoding(q.value.encoding) || |q.value.payload| > 0
  }

  predicate QueryNeedsConsolidation(q: Query) {
    q.consolidation != CONSOLIDATION_AUTO
  }

  predicate QueryNeedsInfo(q: Query) {
    IdCheck(q.info.id)
  }

  /** `z_bytes_check` on the parameters: present when not empty. A slice is
      kept as its contents, so a NULL slice and an empty one coincide. */
  predicate HasParameters(q: Query) {
    |q.parameters| > 0
  }

  /** The consolidation mode as `_z_zint_encode` receives it: converted to
      the 64-bit unsigned zint type, so a negative mode wraps. */
  function ConsolidationWire(c: int): nat {
    c % 0x1_0000_0000_0000_0000
  }

  /** The consolidation extension, as the decoder sees it. */
  function ConsolidationExt(c: nat): MsgExt {
    MsgExt(EXT_CONSOLIDATION, Zint(c))
  }

  /** A mode that fits in the zint type is written as a one-extension chain. */
  lemma ConsolidationChain(c: int)
    requires 0 <= c <= U64_MAX
    ensures Chained([ConsolidationExt(c)])
    ensures ChainEncode([ConsolidationExt(c)]) == [EXT_CONSOLIDATION] + ZintEncode(ConsolidationWire(c))
  {
    assert ConsolidationWire(c) == c;
    assert [ConsolidationExt(c)][1..] == [];
  }

  function QueryHeader(q: Query): (h: byte)
    ensures Mid(h) == MID_QUERY
    ensures Has(h, FLAG_Q_P) <==> HasParameters(q)
    ensures Has(h, FLAG_Z_Z) <==> QueryNeedsBody(q) || QueryNeedsConsolidation(q) || QueryNeedsInfo(q)
  {
    MakeHeader(MID_QUERY, HasParameters(q), false,
               QueryNeedsBody(q) || QueryNeedsConsolidation(q) || QueryNeedsInfo(q))
  }

  /** `_z_query_encode`: header, parameters, then the body extension, the
      consolidation extension and the source info. The body extension is
      written without a length in front, and the source info without the
      extension header that the encoder computes. */
  function QueryEncode(q: Query): (r: Bytes)
    ensures |r| > 0 && r[0] == QueryHeader(q)
  {
    var cons := QueryNeedsConsolidation(q);
    var info := QueryNeedsInfo(q);
    [QueryHeader(q)]
    + (if HasParameters(q) then BytesEncode(q.parameters) else [])
    + (if QueryNeedsBody(q) then [EXT_QUERY_BODY | Flag(cons || info, FLAG_Z_Z)] + ValueEncode(q.value) else [])
    + (if cons then [EXT_CONSOLIDATION | Flag(info, FLAG_Z_Z)] + ZintEncode(ConsolidationWire(q.consolidation)) else [])
    + (if info then SourceInfoEncode(q.info) else [])
  }

  /** `_z_query_decode_extensions`: source info, consolidation and the
      query body are known; other extensions are an error if mandatory and
      ignored otherwise. */
  function QueryExtHandler(e: MsgExt, q: Query): (r: Result<Query>)
    ensures FullId(e.header) !in {EXT_SOURCE_INFO, EXT_CONSOLIDATION, EXT_QUERY_BODY} ==>
            r == if IsMandatory(e.header) then Err(ExtensionMandatoryAndUnknown) else Ok(q)
    ensures r.Ok? ==> r.value.parameters == q.parameters
  {
    if FullId(e.header) == EXT_SOURCE_INFO then
      var si :- SourceInfoDecode(q.info, ZbufBytes(e));
      Ok(q.(info := si.value))
    else if FullId(e.header) == EXT_CONSOLIDATION then
      Ok(q.(consolidation := ZintValue(e)))
    else if FullId(e.header) == EXT_QUERY_BODY then
      var v :- ValueDecode(ZbufBytes(e));
      Ok(q.(value := v.value))
    else if IsMandatory(e.header) then Err(ExtensionMandatoryAndUnknown)
    else Ok(q)
  }

  const NullQuery: Query := Query([], EmptyValue, 0, NullSourceInfo)

  /** `_z_query_decode`: the parameters when flagged, then the extension
      chain, which is read whatever the Z flag says. */
  function QueryDecode(s: Bytes, header: byte): (r: Result<Decoded<Query>>)
    ensures r.Ok? && !Has(header, FLAG_Q_P) ==> r.value.value.parameters == []
  {
    var p :- if Has(header, FLAG_Q_P) then BytesDecode(s) else Ok(Decoded([], s));
    var ex :- ExtDecodeIter(p.rest, QueryExtHandler, NullQuery.(parameters := p.value));
    Ok(Decoded(Query(p.value, ex.value.value, ex.value.consolidation, ex.value.info), ex.rest))
  }

  /** The queries whose trip is exact: a consolidation extension and
      nothing else that would need an extension. */
  predicate QueryRoundTrips(q: Query) {
    0 <= q.consolidation <= U64_MAX && q.value == EmptyValue && q.info == NullSourceInfo
  }

  /** The bytes of a query that has only a consolidation extension. */
  lemma QueryLayout(q: Query)
    requires QueryRoundTrips(q)
    ensures QueryEncode(q) == [QueryHeader(q)] + ((if HasParameters(q) then BytesEncode(q.parameters) else [])
                              + ChainEncode([ConsolidationExt(q.consolidation)]))
  {
    assert !IdCheck(NullSourceInfo.id) by { IdCheckNonZero(NullSourceInfo.id); }
    assert !QueryNeedsBody(q) && QueryNeedsConsolidation(q) && !QueryNeedsInfo(q);
    ConsolidationChain(q.consolidation);
    assert EXT_CONSOLIDATION | Flag(false, FLAG_Z_Z) == EXT_CONSOLIDATION;
  }

  lemma QueryRoundTrip(q: Query, rest: Bytes)
    requires QueryRoundTrips(q)
    ensures var s := QueryEncode(q) + rest;
            QueryDecode(s[1..], s[0]) == Ok(Decoded(q, rest))
  {
    var s := QueryEncode(q) + rest;
    var h := QueryHeader(q);
    var ext := ConsolidationExt(q.consolidation);
    var chain := ChainEncode([ext]) + rest;
    var params := if HasParameters(q) then BytesEncode(q.parameters) else [];
    QueryLayout(q);
    ConsolidationChain(q.consolidation);
    Behead2(h, params, ChainEncode([ext]), rest);
    if HasParameters(q) {
      BytesRoundTrip(q.parameters, chain);
    }
    var p := if Has(h, FLAG_Q_P) then BytesDecode(s[1..]) else Ok(Decoded([], s[1..]));
    if !HasParameters(q) {
      assert params + chain == chain;
    }
    assert p == Ok(Decoded(q.parameters, chain));
    var ctx := NullQuery.(parameters := q.parameters);
    ExtDecodeIterChain([ext], QueryExtHandler, ctx, rest);
    assert [ext][1..] == [];
    assert Fold(QueryExtHandler, ctx, [ext]) == Ok(ctx.(consolidation := q.consolidation));
  }

  /*------------------ Reply (_z_msg_reply_t) ------------------*/

  datatype Reply = Reply(timestamp: Timestamp, value: Value, consolidation: int, sourceInfo: SourceInfo)

  const NullReply: Reply := Reply(NullTimestamp, EmptyValue, 0, NullSourceInfo)

  function ReplyHeader(r: Reply): (h: byte)
    ensures Mid(h) == MID_REPLY
    ensures Has(h, FLAG_R_T) <==> TimestampCheck(r.timestamp)
    ensures Has(h, FLAG_R_E) <==> HasEncoding(r.value.encoding)
    ensures Has(h, FLAG_Z_Z) <==> r.consolidation != CONSOLIDATION_AUTO || IdCheck(r.sourceInfo.id)
  {
    MakeHeader(MID_REPLY, TimestampCheck(r.timestamp), HasEncoding(r.value.encoding),
               r.consolidation != CONSOLIDATION_AUTO || IdCheck(r.sourceInfo.id))
  }

  /** `_z_reply_encode`: header, timestamp, encoding, the source-info
      extension (flagged Z when consolidation follows), the consolidation
      extension, and the payload last. */
  function ReplyEncode(r: Reply): (b: Bytes)
    ensures |b| > 0 && b[0] == ReplyHeader(r)
  {
    var cons := r.consolidation != CONSOLIDATION_AUTO;
    [ReplyHeader(r)]
    + TimestampField(r.timestamp)
    + (if HasEncoding(r.value.encoding) then EncodingEncode(r.value.encoding) else [])
    + (if IdCheck(r.sourceInfo.id) then SourceInfoExt(r.sourceInfo, cons) else [])
    + (if cons then [EXT_CONSOLIDATION] + ZintEncode(ConsolidationWire(r.consolidation)) else [])
    + BytesEncode(r.value.payload)
  }

  /** `_z_reply_decode_extension` */
  function ReplyExtHandler(e: MsgExt, r: Reply): (res: Result<Reply>)
    ensures FullId(e.header) !in {EXT_SOURCE_INFO, EXT_CONSOLIDATION} ==>
            res == if IsMandatory(e.header) then Err(ExtensionMandatoryAndUnknown) else Ok(r)
    ensures res.Ok? ==> res.value.timestamp == r.timestamp && res.value.value == r.value
  {
    if FullId(e.header) == EXT_SOURCE_INFO then
      var si :- SourceInfoDecode(r.sourceInfo, ZbufBytes(e));
      Ok(r.(sourceInfo := si.value))
    else if FullId(e.header) == EXT_CONSOLIDATION then
      Ok(r.(consolidation := ZintValue(e)))
    else if IsMandatory(e.header) then Err(ExtensionMandatoryAndUnknown)
    else Ok(r)
  }

  /** `_z_reply_decode`: timestamp and encoding when flagged, then the
      extension chain (read whatever the Z flag says), then the payload. */
  function ReplyDecode(s: Bytes, header: byte): (r: Result<Decoded<Reply>>)
    ensures r.Ok? && !Has(header, FLAG_R_T) ==> r.value.value.timestamp == NullTimestamp
    ensures r.Ok? && !Has(header, FLAG_R_E) ==> r.value.value.value.encoding == EmptyEncoding
  {
    var ts :- TimestampIf(s, Has(header, FLAG_R_T));
    var enc :- if Has(header, FLAG_R_E) then EncodingDecode(ts.rest) else Ok(Decoded(EmptyEncoding, ts.rest));
    var ex :- ExtDecodeIter(enc.rest, ReplyExtHandler, NullReply.(timestamp := ts.value, value := Value(enc.value, [])));
    var pl :- BytesDecode(ex.rest);
    Ok(Decoded(Reply(ts.value, Value(enc.value, pl.value), ex.value.consolidation, ex.value.sourceInfo), pl.rest))
  }

  /** The replies whose trip is exact: a consolidation extension (so the
      chain the decoder insists on is there) and no source info. */
  predicate ReplyRoundTrips(r: Reply) {
    CanonicalTimestamp(r.timestamp) && 0 <= r.consolidation <= U64_MAX && r.sourceInfo == NullSourceInfo
  }

  /** The bytes of a reply with a consolidation extension and no source info. */
  lemma ReplyLayout(r: Reply)
    requires ReplyRoundTrips(r)
    ensures ReplyEncode(r) == [ReplyHeader(r)] + (TimestampField(r.timestamp)
                              + ((if HasEncoding(r.value.encoding) then EncodingEncode(r.value.encoding) else [])
                                 + ChainEncode([ConsolidationExt(r.consolidation)]) + BytesEncode(r.value.payload)))
  {
    assert !IdCheck(NullSourceInfo.id) by { IdCheckNonZero(NullSourceInfo.id); }
    ConsolidationChain(r.consolidation);
    var ts := TimestampField(r.timestamp);
    var enc := if HasEncoding(r.value.encoding) then EncodingEncode(r.value.encoding) else [];
    var si := if IdCheck(r.sourceInfo.id) then SourceInfoExt(r.sourceInfo, true) else [];
    var cons := [EXT_CONSOLIDATION] + ZintEncode(ConsolidationWire(r.consolidation));
    var payload := BytesEncode(r.value.payload);
    assert si == [];
    assert ReplyEncode(r) == [ReplyHeader(r)] + ts + enc + si + cons + payload;
    Regroup([ReplyHeader(r)], ts, enc, si, cons, payload);
  }

  lemma Regroup(h: Bytes, a: Bytes, b: Bytes, e: Bytes, c: Bytes, d: Bytes)
    requires e == []
    ensures h + a + b + e + c + d == h + (a + (b + c + d))
  {
    assert h + a + b + e == h + a + b;
  }

  /** Decoding the encoding field of a reply. */
  lemma ReplyEncodingField(r: Reply, flagE: bool, after: Bytes)
    requires flagE <==> HasEncoding(r.value.encoding)
    ensures var enc := if HasEncoding(r.value.encoding) then EncodingEncode(r.value.encoding) else [];
            (if flagE then EncodingDecode(enc + after) else Ok(Decoded(EmptyEncoding, enc + after)))
              == Ok(Decoded(r.value.encoding, after))
  {
    if HasEncoding(r.value.encoding) {
      EncodingRoundTrip(r.value.encoding, after);
    } else {
      assert r.value.encoding == EmptyEncoding;
      assert [] + after == after;
    }
  }

  /** Decoding the consolidation chain of a reply. */
  lemma ReplyChain(r: Reply, ctx: Reply, payloadAndRest: Bytes)
    requires ReplyRoundTrips(r)
    ensures ExtDecodeIter(ChainEncode([ConsolidationExt(r.consolidation)]) + payloadAndRest, ReplyExtHandler, ctx)
            == Ok(Decoded(ctx.(consolidation := r.consolidation), payloadAndRest))
  {
    var ext := ConsolidationExt(r.consolidation);
    ConsolidationChain(r.consolidation);
    ExtDecodeIterChain([ext], ReplyExtHandler, ctx, payloadAndRest);
    assert [ext][1..] == [];
    assert Fold(ReplyExtHandler, ctx, [ext]) == Ok(ctx.(consolidation := r.consolidation));
  }

  lemma Regroup3(a: Bytes, b: Bytes, c: Bytes, rest: Bytes)
    ensures (a + b + c) + rest == a + (b + (c + rest))
  {
  }

  lemma ReplyRoundTrip(r: Reply, rest: Bytes)
    requires ReplyRoundTrips(r)
    ensures var s := ReplyEncode(r) + rest;
            ReplyDecode(s[1..], s[0]) == Ok(Decoded(r, rest))
  {
    var s := ReplyEncode(r) + rest;
    var h := ReplyHeader(r);
    var enc := if HasEncoding(r.value.encoding) then EncodingEncode(r.value.encoding) else [];
    var chain := ChainEncode([ConsolidationExt(r.consolidation)]);
    var payload := BytesEncode(r.value.payload);
    var after := chain + (payload + rest);
    ReplyLayout(r);
    Behead2(h, TimestampField(r.timestamp), enc + chain + payload, rest);
    Regroup3(enc, chain, payload, rest);
    TimestampFieldRoundTrip(r.timestamp, enc + after);
    ReplyEncodingField(r, Has(h, FLAG_R_E), after);
    var ctx := NullReply.(timestamp := r.timestamp, value := Value(r.value.encoding, []));
    ReplyChain(r, ctx, payload + rest);
    BytesRoundTrip(r.value.payload, rest);
    ReplyDecodeOfFields(s[1..], h, r, enc + after, after, ctx.(consolidation := r.consolidation), payload + rest, rest);
  }

  /** The Reply decoder put together from what each of its fields decodes to. */
  lemma ReplyDecodeOfFields(s: Bytes, h: byte, r: Reply, afterTs: Bytes, afterEnc: Bytes, e: Reply,
                            afterExt: Bytes, rest: Bytes)
    requires TimestampIf(s, Has(h, FLAG_R_T)) == Ok(Decoded(r.timestamp, afterTs))
    requires (if Has(h, FLAG_R_E) then EncodingDecode(afterTs) else Ok(Decoded(EmptyEncoding, afterTs)))
             == Ok(Decoded(r.value.encoding, afterEnc))
    requires ExtDecodeIter(afterEnc, ReplyExtHandler, NullReply.(timestamp := r.timestamp, value := Value(r.value.encoding, [])))
             == Ok(Decoded(e, afterExt))
    requires e.consolidation == r.consolidation && e.sourceInfo == r.sourceInfo
    requires BytesDecode(afterExt) == Ok(Decoded(r.value.payload, rest))
    ensures ReplyDecode(s, h) == Ok(Decoded(r, rest))
  {
  }

  /*------------------ Err (_z_msg_err_t) ------------------*/

  datatype ErrorMsg = ErrorMsg(code: u16, isInfrastructure: bool, timestamp: Timestamp,
                               sourceInfo: SourceInfo, extValue: Option<Value>)

  const NullErrorMsg: ErrorMsg := ErrorMsg(0, false, NullTimestamp, NullSourceInfo, None)

  /** The header of `_z_err_encode`; it never sets the I flag. */
  function ErrHeader(m: ErrorMsg): (h: byte)
    ensures Mid(h) == MID_ERR
    ensures Has(h, FLAG_E_T) <==> TimestampCheck(m.timestamp)
    ensures Has(h, FLAG_Z_Z) <==> IdCheck(m.sourceInfo.id) || m.extValue.Some?
    ensures !Has(h, FLAG_E_I)
  {
    MakeHeader(MID_ERR, TimestampCheck(m.timestamp), false, IdCheck(m.sourceInfo.id) || m.extValue.Some?)
  }

  /** `_z_err_encode`: header, code, timestamp, then the source-info and
      value extensions, both without a length in front. */
  function ErrEncode(m: ErrorMsg): (r: Bytes)
    ensures |r| > 0 && r[0] == ErrHeader(m)
  {
    [ErrHeader(m)] + ZintEncode(m.code) + TimestampField(m.timestamp)
    + (if IdCheck(m.sourceInfo.id) then SourceInfoExt(m.sourceInfo, m.extValue.Some?) else [])
    + (if m.extValue.Some? then [EXT_ERR_VALUE] + ValueEncode(m.extValue.value) else [])
  }

  /** `_z_err_decode_extension` */
  function ErrExtHandler(e: MsgExt, m: ErrorMsg): (r: Result<ErrorMsg>)
    ensures FullId(e.header) !in {EXT_SOURCE_INFO, EXT_ERR_VALUE} ==>
            r == if IsMandatory(e.header) then Err(ExtensionMandatoryAndUnknown) else Ok(m)
    ensures r.Ok? ==> r.value.code == m.code && r.value.isInfrastructure == m.isInfrastructure
                      && r.value.timestamp == m.timestamp
  {
    if FullId(e.header) == EXT_SOURCE_INFO then
      var si :- SourceInfoDecode(m.sourceInfo, ZbufBytes(e));
      Ok(m.(sourceInfo := si.value))
    else if FullId(e.header) == EXT_ERR_VALUE then
      var v :- ValueDecode(ZbufBytes(e));
      Ok(m.(extValue := Some(v.value)))
    else if IsMandatory(e.header) then Err(ExtensionMandatoryAndUnknown)
    else Ok(m)
  }

  /** `_z_err_decode`: a code that must fit in 16 bits, the infrastructure
      bit straight from the I flag, then timestamp and extensions when
      flagged. */
  function ErrDecode(s: Bytes, header: byte): (r: Result<Decoded<ErrorMsg>>)
    ensures ZintDecode(s).Ok? && ZintDecode(s).value.value > U16_MAX ==> r == Err(DeserializationFailed)
    ensures r.Ok? ==> r.value.value.isInfrastructure == Has(header, FLAG_E_I)
    ensures r.Ok? ==> ZintDecode(s).Ok? && r.value.value.code == ZintDecode(s).value.value
    ensures r.Ok? && !Has(header, FLAG_E_T) ==> r.value.value.timestamp == NullTimestamp
    ensures r.Ok? && !Has(header, FLAG_Z_Z) ==>
            r.value.value.sourceInfo == NullSourceInfo && r.value.value.extValue.None?
  {
    var c :- ZintDecode(s);
    if c.value > U16_MAX then Err(DeserializationFailed)
    else
      var ts :- TimestampIf(c.rest, Has(header, FLAG_E_T));
      var m := NullErrorMsg.(code := c.value, isInfrastructure := Has(header, FLAG_E_I), timestamp := ts.value);
      var ex :- ExtsIf(ts.rest, Has(header, FLAG_Z_Z), ErrExtHandler, m);
      Ok(Decoded(ErrorMsg(c.value, Has(header, FLAG_E_I), ts.value, ex.value.sourceInfo, ex.value.extValue), ex.rest))
  }

  predicate ErrRoundTrips(m: ErrorMsg) {
    !m.isInfrastructure && CanonicalTimestamp(m.timestamp) && m.sourceInfo == NullSourceInfo && m.extValue.None?
  }

  /** The bytes of an err message without source info or value. */
  lemma ErrLayout(m: ErrorMsg)
    requires ErrRoundTrips(m)
    ensures ErrEncode(m) == [ErrHeader(m)] + (ZintEncode(m.code) + TimestampField(m.timestamp))
  {
    assert !IdCheck(NullSourceInfo.id) by { IdCheckNonZero(NullSourceInfo.id); }
  }

  lemma ErrRoundTrip(m: ErrorMsg, rest: Bytes)
    requires ErrRoundTrips(m)
    ensures var s := ErrEncode(m) + rest;
            ErrDecode(s[1..], s[0]) == Ok(Decoded(m, rest))
  {
    var s := ErrEncode(m) + rest;
    var h := ErrHeader(m);
    var tail := TimestampField(m.timestamp) + rest;
    ErrLayout(m);
    Behead2(h, ZintEncode(m.code), TimestampField(m.timestamp), rest);
    ZintRoundTrip(m.code, tail);
    TimestampFieldRoundTrip(m.timestamp, rest);
    assert TimestampIf(tail, Has(h, FLAG_E_T)) == Ok(Decoded(m.timestamp, rest));
  }

  /*------------------ Ack (_z_msg_ack_t) ------------------*/

  datatype Ack = Ack(timestamp: Timestamp, sourceInfo: SourceInfo)

  /** The header of `_z_ack_encode`, which starts from the ERR message id. */
  function AckHeader(a: Ack): (h: byte)
    ensures Mid(h) == MID_ERR
    ensures Has(h, FLAG_A_T) <==> TimestampCheck(a.timestamp)
    ensures Has(h, FLAG_Z_Z) <==> IdCheck(a.sourceInfo.id)
  {
    MakeHeader(MID_ERR, TimestampCheck(a.timestamp), false, IdCheck(a.sourceInfo.id))
  }

  /** `_z_ack_encode` */
  function AckEncode(a: Ack): (r: Bytes)
    ensures |r| > 0 && r[0] == AckHeader(a)
  {
    [AckHeader(a)] + TimestampField(a.timestamp)
    + (if IdCheck(a.sourceInfo.id) then SourceInfoExt(a.sourceInfo, false) else [])
  }

  /** `_z_ack_decode_extension` */
  function AckExtHandler(e: MsgExt, a: Ack): (r: Result<Ack>)
    ensures FullId(e.header) != EXT_SOURCE_INFO ==>
            r == if IsMandatory(e.header) then Err(ExtensionMandatoryAndUnknown) else Ok(a)
    ensures r.Ok? ==> r.value.timestamp == a.timestamp
  {
    if FullId(e.header) == EXT_SOURCE_INFO then
      var si :- SourceInfoDecode(a.sourceInfo, ZbufBytes(e));
      Ok(a.(sourceInfo := si.value))
    else if IsMandatory(e.header) then Err(ExtensionMandatoryAndUnknown)
    else Ok(a)
  }

  /** `_z_ack_decode` */
  function AckDecode(s: Bytes, header: byte): (r: Result<Decoded<Ack>>)
    ensures r.Ok? && !Has(header, FLAG_A_T) ==> r.value.value.timestamp == NullTimestamp
    ensures r.Ok? && !Has(header, FLAG_Z_Z) ==> r.value.value.sourceInfo == NullSourceInfo
  {
    var ts :- TimestampIf(s, Has(header, FLAG_A_T));
    var ex :- ExtsIf(ts.rest, Has(header, FLAG_Z_Z), AckExtHandler, Ack(ts.value, NullSourceInfo));
    Ok(Decoded(Ack(ts.value, ex.value.sourceInfo), ex.rest))
  }

  lemma AckRoundTrip(a: Ack, rest: Bytes)
    requires CanonicalTimestamp(a.timestamp) && a.sourceInfo == NullSourceInfo
    ensures var s := AckEncode(a) + rest;
            AckDecode(s[1..], s[0]) == Ok(Decoded(a, rest))
  {
    assert !IdCheck(NullSourceInfo.id) by { IdCheckNonZero(NullSourceInfo.id); }
    var s := AckEncode(a) + rest;
    var h := AckHeader(a);
    assert AckEncode(a) == [h] + TimestampField(a.timestamp);
    Behead(h, TimestampField(a.timestamp), rest);
    TimestampFieldRoundTrip(a.timestamp, rest);
    assert TimestampIf(s[1..], Has(h, FLAG_A_T)) == Ok(Decoded(a.timestamp, rest));
  }

  /*------------------ Pull (_z_msg_pull_t) ------------------*/

  datatype Pull = Pull(sourceInfo: SourceInfo)

  /** `_z_pull_encode`: only the source-info extension, when the id is valid;
      the header argument is not used and no header is written. */
  function PullEncode(header: byte, p: Pull): (r: Bytes)
    ensures |r| > 0 <==> IdCheck(p.sourceInfo.id)
  {
    if IdCheck(p.sourceInfo.id) then SourceInfoExt(p.sourceInfo, false) else []
  }

  /** `_z_pull_decode_extension` */
  function PullExtHandler(e: MsgExt, p: Pull): (r: Result<Pull>)
    ensures FullId(e.header) != EXT_SOURCE_INFO ==>
            r == if IsMandatory(e.header) then Err(ExtensionMandatoryAndUnknown) else Ok(p)
  {
    if FullId(e.header) == EXT_SOURCE_INFO then
      var si :- SourceInfoDecode(p.sourceInfo, ZbufBytes(e));
      Ok(Pull(si.value))
    else if IsMandatory(e.header) then Err(ExtensionMandatoryAndUnknown)
    else Ok(p)
  }

  /** `_z_pull_decode`: the extension chain when the Z flag is set. */
  function PullDecode(s: Bytes, header: byte): (r: Result<Decoded<Pull>>)
    ensures !Has(header, FLAG_Z_Z) ==> r == Ok(Decoded(Pull(NullSourceInfo), s))
  {
    ExtsIf(s, Has(header, FLAG_Z_Z), PullExtHandler, Pull(NullSourceInfo))
  }

  /** A Pull without source info is written as nothing, and a header
      without Z reads it back, leaving what follows. */
  lemma PullRoundTrip(header: byte, p: Pull, rest: Bytes)
    requires p.sourceInfo == NullSourceInfo && !Has(header, FLAG_Z_Z)
    ensures PullDecode(PullEncode(header, p) + rest, header) == Ok(Decoded(p, rest))
  {
    assert !IdCheck(NullSourceInfo.id) by { IdCheckNonZero(NullSourceInfo.id); }
    assert PullEncode(header, p) + rest == rest;
  }
}
