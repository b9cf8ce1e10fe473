/** Corrections of the message codec. Each section shows an input on which
    the codec as written (modules Fields and Messages) does not give back what
    was encoded, then a corrected definition with the round trip proved. */
module CodecFixes {
  import opened Results
  import opened Wire
  import opened Ext
  import opened Fields
  import opened Messages

  /*------------------ source info: the id length nibble ------------------*/

  /** As written, a 16-byte id writes 16 << 4, which is 0 in a byte: the
      decoder reads no id bytes, so the id comes back as the empty id. */
  lemma FullLengthIdIsLost(info: SourceInfo, rest: Bytes)
    requires IdLen(info.id) == ID_SIZE
    ensures SourceInfoDecode(NullSourceInfo, SourceInfoEncode(info) + rest) != Ok(Decoded(info, rest))
  {
    var e := SourceInfoEncode(info);
    var s := e + rest;
    NibbleOfFullLength();
    assert s[0] == e[0] == 0;
    var r := SourceInfoDecode(NullSourceInfo, s);
    if r.Ok? {
      assert r.value.value.id[ID_SIZE - 1] == 0 != info.id[ID_SIZE - 1];
    }
  }

  lemma NibbleOfFullLength()
    ensures ZidLenNibble(ID_SIZE) == 0 && ZidNibble(0) == 0
  {
    assert (ID_SIZE * 16) % 256 == 0 by { assert ID_SIZE * 16 == 256; }
    assert ZidLenNibble(ID_SIZE) as nat == 0;
  }

  /** The first byte with the id length less one in its high nibble, as
      `(zidlen - 1) << 4`: every length from 1 to 16 fits. */
  function ZidLenNibbleFixed(n: nat): (b: byte)
    requires 1 <= n <= ID_SIZE
    ensures ZidNibble(b) + 1 == n
  {
    var x := (n - 1) * 16;
    NatByte(x);
    x as byte
  }

  /** `_z_source_info_encode` with the length less one in the nibble. The
      codec writes source info only for a valid id, whose length is at least 1. */
  function SourceInfoEncodeFixed(info: SourceInfo): (r: Bytes)
    requires IdCheck(info.id)
    ensures |r| > 0 && ZidNibble(r[0]) + 1 == IdLen(info.id)
  {
    var n := IdLen(info.id);
    [ZidLenNibbleFixed(n)] + info.id[..n] + ZintEncode(info.entityId) + ZintEncode(info.sourceSn)
  }

  /** `_z_source_info_decode` reading one more id byte than the nibble
      says, into the source info `into` the message already holds. */
  function SourceInfoDecodeFixed(into: SourceInfo, s: Bytes): (r: Result<Decoded<SourceInfo>>)
    ensures r.Ok? ==> |s| > 0 && |s| > ZidNibble(s[0]) + 1
                      && r.value.value.id == IdOverwrite(into.id, s[1..ZidNibble(s[0]) + 2])
  {
    var h :- Uint8Decode(s);
    var n := ZidNibble(h.value) + 1;
    if |h.rest| < n then Err(DeserializationFailed)
    else
      assert h.rest[..n] == s[1..n + 1];
      var e :- U32Decode(h.rest[n..]);
      var sn :- U32Decode(e.rest);
      Ok(Decoded(SourceInfo(IdOverwrite(into.id, h.rest[..n]), e.value, sn.value), sn.rest))
  }

  /** Every valid id survives the corrected pair, a 16-byte one included,
      when it is read into a message whose id is still empty. */
  lemma SourceInfoFixedRoundTrip(into: SourceInfo, info: SourceInfo, rest: Bytes)
    requires into.id == EmptyId && IdCheck(info.id)
    ensures SourceInfoDecodeFixed(into, SourceInfoEncodeFixed(info) + rest) == Ok(Decoded(info, rest))
  {
    var n := IdLen(info.id);
    var tail := ZintEncode(info.entityId) + ZintEncode(info.sourceSn) + rest;
    assert SourceInfoEncodeFixed(info) + rest == [ZidLenNibbleFixed(n)] + info.id[..n] + tail;
    SourceInfoTailRoundTrip(info.entityId, info.sourceSn, rest);
    SourceInfoDecodeFixedParts(into, ZidLenNibbleFixed(n), info.id[..n], tail);
    IdOverwriteEmpty(info.id[..n]);
    IdFromSignificant(info.id);
  }

  /** The corrected decoder on a first byte, as many id bytes as its nibble
      plus one, and a tail. */
  lemma SourceInfoDecodeFixedParts(into: SourceInfo, b: byte, idBytes: Bytes, tail: Bytes)
    requires |idBytes| == ZidNibble(b) + 1
    ensures SourceInfoDecodeFixed(into, [b] + idBytes + tail)
            == (var e :- U32Decode(tail);
                var sn :- U32Decode(e.rest);
                Ok(Decoded(SourceInfo(IdOverwrite(into.id, idBytes), e.value, sn.value), sn.rest)))
  {
    var s := [b] + idBytes + tail;
    assert s[1..][..|idBytes|] == idBytes && s[1..][|idBytes|..] == tail;
  }

  /*------------------ zbuf extensions written without their length ------------------*/

  /** As written, the source-info extension is its header and then the raw
      source info; the extension decoder reads a zbuf body as a length and
      that many bytes. For a one-byte id the first source-info byte, 0x10,
      is read as a length of 16 where three bytes remain, so a Del carrying
      source info cannot be decoded. */
  lemma UnframedSourceInfoFails(info: SourceInfo)
    requires IdLen(info.id) == 1 && info.entityId < 0x80 && info.sourceSn < 0x80
    ensures var s := PushBodyEncode(Del(Commons(NullTimestamp, info)));
            PushBodyDecode(s[1..], s[0]).Err?
  {
    var b := Del(Commons(NullTimestamp, info));
    var si := SourceInfoEncode(info);
    ShortSourceInfo(info);
    DelLayout(b);
    var s := PushBodyEncode(b);
    assert s[1..] == [EXT_SOURCE_INFO] + si;
    UnframedExtFails(si);
  }

  lemma NibbleOfOne()
    ensures ZidLenNibble(1) == 0x10
  {
    assert (1 * 16) % 256 == 16;
    assert ZidLenNibble(1) as nat == 16;
  }

  /** The bytes of a one-byte-id source info with small numbers: 0x10 and three more. */
  lemma ShortSourceInfo(info: SourceInfo)
    requires IdLen(info.id) == 1 && info.entityId < 0x80 && info.sourceSn < 0x80
    ensures |SourceInfoEncode(info)| == 4 && SourceInfoEncode(info)[0] == 0x10
  {
    NibbleOfOne();
    assert |ZintEncode(info.entityId)| == 1 && |ZintEncode(info.sourceSn)| == 1;
  }

  /** The bytes of a Del with a null timestamp: its header, then the
      source-info extension as written. */
  lemma DelLayout(b: PushBody)
    requires b.Del? && b.commons.timestamp == NullTimestamp && IdCheck(b.commons.sourceInfo.id)
    ensures PushBodyEncode(b) == [PushHeader(b)] + ([EXT_SOURCE_INFO] + SourceInfoEncode(b.commons.sourceInfo))
    ensures Mid(PushHeader(b)) == MID_DEL && Has(PushHeader(b), FLAG_Z_Z) && !Has(PushHeader(b), FLAG_D_T)
  {
    assert !TimestampCheck(NullTimestamp) by { IdCheckNonZero(EmptyId); }
    assert EXT_SOURCE_INFO | Flag(false, FLAG_Z_Z) == EXT_SOURCE_INFO;
  }

  /** A zbuf extension whose body starts with 0x10 but is shorter than 17 bytes. */
  lemma UnframedExtFails(si: Bytes)
    requires |si| == 4 && si[0] == 0x10
    ensures ExtDecodeIter([EXT_SOURCE_INFO] + si, PushExtHandler, Del(NullCommons)).Err?
    ensures forall ctx :: ExtDecodeIter([EXT_SOURCE_INFO] + si, PushExtHandler, ctx).Err?
  {
    var body := [EXT_SOURCE_INFO] + si;
    assert ZintDecode(si) == Ok(Decoded(16, si[1..]));
    assert BytesDecode(si).Err?;
    assert Uint8Decode(body) == Ok(Decoded(EXT_SOURCE_INFO, si));
    assert ExtDecode(body).Err?;
  }

  /** An extension id with or without the Z flag: its full id and kind are
      those of the id alone, and it announces a next extension exactly when
      the flag is set. */
  lemma ZFlagged(id: byte, more: bool)
    requires id < 0x80
    ensures FullId(id | Flag(more, FLAG_Z)) == id && Kind(id | Flag(more, FLAG_Z)) == Kind(id)
    ensures HasNext(id | Flag(more, FLAG_Z)) <==> more
  {
  }

  /** The source-info extension as the corrected encoders write it: the
      corrected source info, framed as a zbuf body the way the extension
      encoder `_z_msg_ext_encode_zbuf` lays one out, flagged Z when another
      extension follows. */
  function SourceInfoExtFixed(info: SourceInfo, more: bool): (e: MsgExt)
    requires IdCheck(info.id)
    ensures WellFormed(e) && FullId(e.header) == EXT_SOURCE_INFO && (HasNext(e.header) <==> more)
    ensures e.body == Zbuf(SourceInfoEncodeFixed(info))
  {
    ZFlagged(EXT_SOURCE_INFO, more);
    MsgExt(EXT_SOURCE_INFO | Flag(more, FLAG_Z), Zbuf(SourceInfoEncodeFixed(info)))
  }

  /** The bytes of that extension when it is the last one: a one-extension chain. */
  function SourceInfoExtFramed(info: SourceInfo): (r: Bytes)
    requires IdCheck(info.id)
    ensures r == ChainEncode([SourceInfoExtFixed(info, false)])
  {
    var e := SourceInfoExtFixed(info, false);
    assert ChainEncode([e]) == ExtEncode(e) + ChainEncode([]);
    ExtEncode(e)
  }

  /** `_z_push_body_decode_extensions` reading source info with the
      corrected decoder; every other extension is handled as written. */
  function PushExtHandlerFixed(e: MsgExt, b: PushBody): (r: Result<PushBody>)
    ensures FullId(e.header) != EXT_SOURCE_INFO ==> r == PushExtHandler(e, b)
    ensures r.Ok? ==> r.value == b.(commons := b.commons.(sourceInfo := r.value.commons.sourceInfo))
  {
    if FullId(e.header) == EXT_SOURCE_INFO then
      var si :- SourceInfoDecodeFixed(b.commons.sourceInfo, ZbufBytes(e));
      Ok(b.(commons := b.commons.(sourceInfo := si.value)))
    else PushExtHandler(e, b)
  }

  /** The framed extension, read into a body whose id is still empty,
      decodes back to the source info it carries, whatever the id's length,
      and leaves what follows. */
  lemma SourceInfoExtFramedDecodes(info: SourceInfo, ctx: PushBody, after: Bytes)
    requires IdCheck(info.id) && ctx.commons.sourceInfo.id == EmptyId
    ensures ExtDecodeIter(SourceInfoExtFramed(info) + after, PushExtHandlerFixed, ctx)
            == Ok(Decoded(ctx.(commons := ctx.commons.(sourceInfo := info)), after))
  {
    var e := SourceInfoExtFixed(info, false);
    assert Chained([e]);
    ExtDecodeIterChain([e], PushExtHandlerFixed, ctx, after);
    SourceInfoFixedRoundTrip(ctx.commons.sourceInfo, info, []);
    assert SourceInfoEncodeFixed(info) + [] == SourceInfoEncodeFixed(info);
    assert [e][1..] == [];
  }

  /*------------------ Put: the encoding suffix is never read ------------------*/

  /** As written, the Put decoder reads the encoding prefix and leaves the
      suffix empty, whatever the encoder wrote after the prefix. */
  lemma PutSuffixNeverRead(s: Bytes, h: byte)
    ensures var r := PushBodyDecode(s, h);
            r.Ok? && r.value.value.Put? ==> r.value.value.encoding.suffix == []
  {
  }

  /** So a Put whose encoding has a suffix never comes back. */
  lemma PutWithSuffixIsLost(b: PushBody, rest: Bytes)
    requires b.Put? && |b.encoding.suffix| > 0
    ensures var s := PushBodyEncode(b) + rest;
            PushBodyDecode(s[1..], s[0]) != Ok(Decoded(b, rest))
  {
    var s := PushBodyEncode(b) + rest;
    PutSuffixNeverRead(s[1..], s[0]);
  }

  /** The suffix length is written even when the suffix is empty, and left
      unread: a Put with only an encoding prefix, no timestamp and no source
      info comes back with that length byte as its payload, and its own
      payload left behind. */
  lemma PutWithPrefixIsLost(b: PushBody, rest: Bytes)
    requires b.Put? && b.encoding.prefix != ENCODING_PREFIX_EMPTY && b.encoding.suffix == []
    requires b.commons == NullCommons
    ensures var s := PushBodyEncode(b) + rest;
            PushBodyDecode(s[1..], s[0])
              == Ok(Decoded(b.(payload := []), BytesEncode(b.payload) + rest))
  {
    var h := PushHeader(b);
    var z := ZintEncode(b.encoding.prefix);
    var pl := BytesEncode(b.payload);
    PutPrefixLayout(b);
    var s := PushBodyEncode(b) + rest;
    RegroupPut(h, z, pl, rest);
    ZintRoundTrip(b.encoding.prefix, [0] + (pl + rest));
    EmptyBytesDecode(pl + rest);
    PutDecodeNoFlags(s[1..], h, b.encoding.prefix, [0] + (pl + rest), pl + rest);
    assert b.(payload := []) == Put(NullCommons, WireEncoding(b.encoding.prefix, []), []);
  }

  lemma RegroupPut(h: byte, z: Bytes, pl: Bytes, rest: Bytes)
    ensures ([h] + (z + [0]) + pl + rest)[0] == h
    ensures ([h] + (z + [0]) + pl + rest)[1..] == z + ([0] + (pl + rest))
  {
    assert [h] + (z + [0]) + pl + rest == [h] + (z + ([0] + (pl + rest)));
  }

  /** A zero length reads as the empty byte string. */
  lemma EmptyBytesDecode(after: Bytes)
    ensures BytesDecode([0] + after) == Ok(Decoded([], after))
  {
    assert BytesEncode([]) == [0];
    BytesRoundTrip([], after);
  }

  /** The bytes of such a Put: its header (PUT, E, no T, no Z), the prefix,
      the zero length of the empty suffix, then the payload. */
  lemma PutPrefixLayout(b: PushBody)
    requires b.Put? && b.encoding.prefix != ENCODING_PREFIX_EMPTY && b.encoding.suffix == []
    requires b.commons == NullCommons
    ensures PushBodyEncode(b) == [PushHeader(b)] + (ZintEncode(b.encoding.prefix) + [0]) + BytesEncode(b.payload)
    ensures Mid(PushHeader(b)) == MID_PUT && Has(PushHeader(b), FLAG_P_E)
            && !Has(PushHeader(b), FLAG_P_T) && !Has(PushHeader(b), FLAG_Z_Z)
  {
    assert !TimestampCheck(NullTimestamp) by { IdCheckNonZero(EmptyId); }
    assert !IdCheck(NullSourceInfo.id) by { IdCheckNonZero(NullSourceInfo.id); }
    assert BytesEncode([]) == [0];
  }

  /** The Put decoder as written under a header with E and neither T nor Z:
      the prefix, then a payload. */
  lemma PutDecodeNoFlags(s: Bytes, h: byte, prefix: nat, afterPrefix: Bytes, rest: Bytes)
    requires Mid(h) == MID_PUT && Has(h, FLAG_P_E) && !Has(h, FLAG_P_T) && !Has(h, FLAG_Z_Z)
    requires ZintDecode(s) == Ok(Decoded(prefix, afterPrefix))
    requires BytesDecode(afterPrefix) == Ok(Decoded([], rest))
    ensures PushBodyDecode(s, h) == Ok(Decoded(Put(NullCommons, WireEncoding(prefix, []), []), rest))
  {
  }

  /*------------------ the corrected push body ------------------*/

  /** `_z_push_body_encode` with the source-info extension framed. */
  function PushBodyEncodeFixed(b: PushBody): (r: Bytes)
    ensures |r| > 0 && r[0] == PushHeader(b)
  {
    [PushHeader(b)]
    + TimestampField(b.commons.timestamp)
    + (if b.Put? && HasEncoding(b.encoding) then EncodingEncode(b.encoding) else [])
    + (if IdCheck(b.commons.sourceInfo.id) then SourceInfoExtFramed(b.commons.sourceInfo) else [])
    + (if b.Put? then BytesEncode(b.payload) else [])
  }

  /** `_z_push_body_decode` with both corrections: the Put branch reads the
      whole encoding, prefix and suffix, as the encoder writes it, and both
      branches read source info with the corrected decoder. */
  function PushBodyDecodeFixed(s: Bytes, header: byte): (r: Result<Decoded<PushBody>>)
    ensures Mid(header) != MID_PUT && Mid(header) != MID_DEL ==> r == Err(ZenohUnknown)
    ensures r.Ok? ==> (r.value.value.Put? <==> Mid(header) == MID_PUT)
    ensures r.Ok? && !Has(header, FLAG_Z_Z) ==> r.value.value.commons.sourceInfo == NullSourceInfo
    ensures Mid(header) == MID_DEL && !Has(header, FLAG_Z_Z) ==> r == PushBodyDecode(s, header)
  {
    if Mid(header) == MID_PUT then
      var ts :- TimestampIf(s, Has(header, FLAG_P_T));
      var enc :- if Has(header, FLAG_P_E) then EncodingDecode(ts.rest) else Ok(Decoded(EmptyEncoding, ts.rest));
      var b := Put(Commons(ts.value, NullSourceInfo), enc.value, []);
      var ex :- ExtsIf(enc.rest, Has(header, FLAG_Z_Z), PushExtHandlerFixed, b);
      var pl :- BytesDecode(ex.rest);
      Ok(Decoded(Put(Commons(ts.value, ex.value.commons.sourceInfo), enc.value, pl.value), pl.rest))
    else if Mid(header) == MID_DEL then
      var ts :- TimestampIf(s, Has(header, FLAG_D_T));
      var ex :- ExtsIf(ts.rest, Has(header, FLAG_Z_Z), PushExtHandlerFixed, Del(Commons(ts.value, NullSourceInfo)));
      Ok(Decoded(Del(Commons(ts.value, ex.value.commons.sourceInfo)), ex.rest))
    else Err(ZenohUnknown)
  }

  /** Source info that survives the trip: any valid id, a 16-byte one
      included, or the null source info the decoder starts from. */
  predicate CanonicalSourceInfo(info: SourceInfo) {
    IdCheck(info.id) || info == NullSourceInfo
  }

  /** The optional source-info field of the corrected encoder decodes back. */
  lemma SourceInfoFieldRoundTrip(info: SourceInfo, ctx: PushBody, after: Bytes)
    requires CanonicalSourceInfo(info) && ctx.commons.sourceInfo == NullSourceInfo
    ensures var f := if IdCheck(info.id) then SourceInfoExtFramed(info) else [];
            ExtsIf(f + after, IdCheck(info.id), PushExtHandlerFixed, ctx)
              == Ok(Decoded(ctx.(commons := ctx.commons.(sourceInfo := info)), after))
  {
    if IdCheck(info.id) {
      SourceInfoExtFramedDecodes(info, ctx, after);
    } else {
      assert [] + after == after;
      assert ctx.(commons := ctx.commons.(sourceInfo := info)) == ctx;
    }
  }

  /** The optional encoding field of a Put decodes back. */
  lemma EncodingFieldRoundTrip(e: WireEncoding, h: byte, after: Bytes)
    requires Has(h, FLAG_P_E) <==> HasEncoding(e)
    ensures var f := if HasEncoding(e) then EncodingEncode(e) else [];
            (if Has(h, FLAG_P_E) then EncodingDecode(f + after) else Ok(Decoded(EmptyEncoding, f + after)))
              == Ok(Decoded(e, after))
  {
    if HasEncoding(e) {
      EncodingRoundTrip(e, after);
    } else {
      assert [] + after == after;
    }
  }

  /** The corrected encoder's bytes, field by field. */
  lemma PushFixedLayout(b: PushBody, rest: Bytes)
    ensures var s := PushBodyEncodeFixed(b) + rest;
            var ts := TimestampField(b.commons.timestamp);
            var enc := if b.Put? && HasEncoding(b.encoding) then EncodingEncode(b.encoding) else [];
            var si := if IdCheck(b.commons.sourceInfo.id) then SourceInfoExtFramed(b.commons.sourceInfo) else [];
            var pl := if b.Put? then BytesEncode(b.payload) else [];
            s[0] == PushHeader(b) && s[1..] == ts + (enc + (si + (pl + rest)))
  {
    var ts := TimestampField(b.commons.timestamp);
    var enc := if b.Put? && HasEncoding(b.encoding) then EncodingEncode(b.encoding) else [];
    var si := if IdCheck(b.commons.sourceInfo.id) then SourceInfoExtFramed(b.commons.sourceInfo) else [];
    var pl := if b.Put? then BytesEncode(b.payload) else [];
    var h := [PushHeader(b)];
    assert PushBodyEncodeFixed(b) == h + ts + enc + si + pl;
    Assoc(h + ts + enc + si, pl, rest);
    Assoc(h + ts + enc, si, pl + rest);
    Assoc(h + ts, enc, si + (pl + rest));
    Assoc(h, ts, enc + (si + (pl + rest)));
  }

  /** Every push body with a valid or null timestamp and a valid or null
      source info survives the corrected codec: any encoding, any payload,
      any source-id length. */
  lemma PushBodyFixedRoundTrip(b: PushBody, rest: Bytes)
    requires CanonicalTimestamp(b.commons.timestamp) && CanonicalSourceInfo(b.commons.sourceInfo)
    ensures var s := PushBodyEncodeFixed(b) + rest;
            PushBodyDecodeFixed(s[1..], s[0]) == Ok(Decoded(b, rest))
  {
    var s := PushBodyEncodeFixed(b) + rest;
    var ts := TimestampField(b.commons.timestamp);
    var enc := if b.Put? && HasEncoding(b.encoding) then EncodingEncode(b.encoding) else [];
    var si := if IdCheck(b.commons.sourceInfo.id) then SourceInfoExtFramed(b.commons.sourceInfo) else [];
    var pl := if b.Put? then BytesEncode(b.payload) else [];
    PushFixedLayout(b, rest);
    assert s[0] == PushHeader(b) && s[1..] == ts + (enc + (si + (pl + rest)));
    if b.Put? {
      PutFixedRoundTrip(b, rest);
      assert pl == BytesEncode(b.payload);
    } else {
      DelFixedRoundTrip(b, rest);
      assert enc == [] && pl == [];
      assert pl + rest == rest;
      assert enc + (si + rest) == si + rest;
    }
  }

  lemma PutFixedRoundTrip(b: PushBody, rest: Bytes)
    requires b.Put?
    requires CanonicalTimestamp(b.commons.timestamp) && CanonicalSourceInfo(b.commons.sourceInfo)
    ensures var ts := TimestampField(b.commons.timestamp);
            var enc := if HasEncoding(b.encoding) then EncodingEncode(b.encoding) else [];
            var si := if IdCheck(b.commons.sourceInfo.id) then SourceInfoExtFramed(b.commons.sourceInfo) else [];
            PushBodyDecodeFixed(ts + (enc + (si + (BytesEncode(b.payload) + rest))), PushHeader(b)) == Ok(Decoded(b, rest))
  {
    var h := PushHeader(b);
    var enc := if HasEncoding(b.encoding) then EncodingEncode(b.encoding) else [];
    var si := if IdCheck(b.commons.sourceInfo.id) then SourceInfoExtFramed(b.commons.sourceInfo) else [];
    var pl := BytesEncode(b.payload);
    TimestampFieldRoundTrip(b.commons.timestamp, enc + (si + (pl + rest)));
    EncodingFieldRoundTrip(b.encoding, h, si + (pl + rest));
    var ctx := Put(Commons(b.commons.timestamp, NullSourceInfo), b.encoding, []);
    SourceInfoFieldRoundTrip(b.commons.sourceInfo, ctx, pl + rest);
    BytesRoundTrip(b.payload, rest);
    PutDecodeOfFields(TimestampField(b.commons.timestamp) + (enc + (si + (pl + rest))), h, b,
                      enc + (si + (pl + rest)), si + (pl + rest), ctx.(commons := b.commons), pl + rest, rest);
  }

  /** The corrected Put decoder put together from what each of its fields
      decodes to. */
  lemma PutDecodeOfFields(s: Bytes, h: byte, b: PushBody, afterTs: Bytes, afterEnc: Bytes, e: PushBody,
                          afterExt: Bytes, rest: Bytes)
    requires b.Put? && Mid(h) == MID_PUT
    requires TimestampIf(s, Has(h, FLAG_P_T)) == Ok(Decoded(b.commons.timestamp, afterTs))
    requires (if Has(h, FLAG_P_E) then EncodingDecode(afterTs) else Ok(Decoded(EmptyEncoding, afterTs)))
             == Ok(Decoded(b.encoding, afterEnc))
    requires ExtsIf(afterEnc, Has(h, FLAG_Z_Z), PushExtHandlerFixed,
                    Put(Commons(b.commons.timestamp, NullSourceInfo), b.encoding, []))
             == Ok(Decoded(e, afterExt))
    requires e.commons.sourceInfo == b.commons.sourceInfo
    requires BytesDecode(afterExt) == Ok(Decoded(b.payload, rest))
    ensures PushBodyDecodeFixed(s, h) == Ok(Decoded(b, rest))
  {
  }

  lemma DelFixedRoundTrip(b: PushBody, rest: Bytes)
    requires b.Del?
    requires CanonicalTimestamp(b.commons.timestamp) && CanonicalSourceInfo(b.commons.sourceInfo)
    ensures var ts := TimestampField(b.commons.timestamp);
            var si := if IdCheck(b.commons.sourceInfo.id) then SourceInfoExtFramed(b.commons.sourceInfo) else [];
            PushBodyDecodeFixed(ts + (si + rest), PushHeader(b)) == Ok(Decoded(b, rest))
  {
    var si := if IdCheck(b.commons.sourceInfo.id) then SourceInfoExtFramed(b.commons.sourceInfo) else [];
    TimestampFieldRoundTrip(b.commons.timestamp, si + rest);
    var ctx := Del(Commons(b.commons.timestamp, NullSourceInfo));
    SourceInfoFieldRoundTrip(b.commons.sourceInfo, ctx, rest);
  }

  /*------------------ Query: the Z flag is not consulted ------------------*/

  /** A query with nothing to put in extensions (AUTO consolidation, no
      value, no source info) is written without the Z flag and without a
      chain. */
  lemma PlainQueryLayout(q: Query)
    requires q.value == EmptyValue && q.consolidation == CONSOLIDATION_AUTO && q.info == NullSourceInfo
    ensures QueryEncode(q) == [QueryHeader(q)] + (if HasParameters(q) then BytesEncode(q.parameters) else [])
    ensures !Has(QueryHeader(q), FLAG_Z_Z) && (Has(QueryHeader(q), FLAG_Q_P) <==> HasParameters(q))
  {
    assert !IdCheck(NullSourceInfo.id) by { IdCheckNonZero(NullSourceInfo.id); }
    assert !QueryNeedsBody(q) && !QueryNeedsConsolidation(q) && !QueryNeedsInfo(q);
  }

  /** The parameters field reads back. */
  lemma ParametersFieldRoundTrip(q: Query, h: byte, rest: Bytes)
    requires Has(h, FLAG_Q_P) <==> HasParameters(q)
    ensures var f := if HasParameters(q) then BytesEncode(q.parameters) else [];
            (if Has(h, FLAG_Q_P) then BytesDecode(f + rest) else Ok(Decoded([], f + rest)))
              == Ok(Decoded(q.parameters, rest))
  {
    if HasParameters(q) {
      BytesRoundTrip(q.parameters, rest);
    } else {
      assert [] + rest == rest;
    }
  }

  /** As written, the Query decoder reads an extension chain even when the
      header has no Z flag: a query at the end of the input, with nothing in
      extensions, cannot be decoded. */
  lemma PlainQueryFails(params: Bytes)
    ensures var s := QueryEncode(Query(params, EmptyValue, CONSOLIDATION_AUTO, NullSourceInfo));
            QueryDecode(s[1..], s[0]).Err?
  {
    var q := Query(params, EmptyValue, CONSOLIDATION_AUTO, NullSourceInfo);
    PlainQueryLayout(q);
    var s := QueryEncode(q);
    ParametersFieldRoundTrip(q, s[0], []);
    assert s[1..] == (if HasParameters(q) then BytesEncode(q.parameters) else []) + [];
    assert ExtDecode([]).Err?;
  }

  /** `_z_query_decode_extensions` reading source info with the corrected
      decoder; every other extension is handled as written. */
  function QueryExtHandlerFixed(e: MsgExt, q: Query): (r: Result<Query>)
    ensures FullId(e.header) != EXT_SOURCE_INFO ==> r == QueryExtHandler(e, q)
    ensures r.Ok? ==> r.value.parameters == q.parameters
  {
    if FullId(e.header) == EXT_SOURCE_INFO then
      var si :- SourceInfoDecodeFixed(q.info, ZbufBytes(e));
      Ok(q.(info := si.value))
    else QueryExtHandler(e, q)
  }

  /** `_z_query_decode` reading the chain only when the Z flag is set, and
      its source info with the corrected decoder. */
  function QueryDecodeFixed(s: Bytes, header: byte): (r: Result<Decoded<Query>>)
    ensures r.Ok? && !Has(header, FLAG_Q_P) ==> r.value.value.parameters == []
    ensures r.Ok? && !Has(header, FLAG_Z_Z) ==> r.value.value == NullQuery.(parameters := r.value.value.parameters)
  {
    var p :- if Has(header, FLAG_Q_P) then BytesDecode(s) else Ok(Decoded([], s));
    var ex :- ExtsIf(p.rest, Has(header, FLAG_Z_Z), QueryExtHandlerFixed, NullQuery.(parameters := p.value));
    Ok(Decoded(Query(p.value, ex.value.value, ex.value.consolidation, ex.value.info), ex.rest))
  }

  /** With the fix such a query decodes: its parameters come back, and every
      other field keeps the value the decoder starts from. */
  lemma PlainQueryFixedDecodes(q: Query, rest: Bytes)
    requires q.value == EmptyValue && q.consolidation == CONSOLIDATION_AUTO && q.info == NullSourceInfo
    ensures var s := QueryEncode(q) + rest;
            QueryDecodeFixed(s[1..], s[0]) == Ok(Decoded(NullQuery.(parameters := q.parameters), rest))
  {
    PlainQueryLayout(q);
    var f := if HasParameters(q) then BytesEncode(q.parameters) else [];
    var s := QueryEncode(q) + rest;
    assert s[0] == QueryHeader(q) && s[1..] == f + rest;
    ParametersFieldRoundTrip(q, s[0], rest);
  }

  /*------------------ Query: the source-info extension header is not written ------------------*/

  /** As written, the Query encoder computes the source-info extension
      header and writes only the source info: the decoder takes its first
      byte, 0x10 for a one-byte id, for an extension header, a mandatory unit
      extension with an unknown id, and fails. */
  lemma QueryInfoHeaderMissing(info: SourceInfo, rest: Bytes)
    requires IdLen(info.id) == 1
    ensures var s := QueryEncode(Query([], EmptyValue, CONSOLIDATION_AUTO, info)) + rest;
            QueryDecode(s[1..], s[0]) == Err(ExtensionMandatoryAndUnknown)
  {
    var q := Query([], EmptyValue, CONSOLIDATION_AUTO, info);
    var si := SourceInfoEncode(info);
    NibbleOfOne();
    assert !QueryNeedsBody(q) && !QueryNeedsConsolidation(q) && QueryNeedsInfo(q) && !HasParameters(q);
    var s := QueryEncode(q) + rest;
    assert s[1..] == si + rest;
    assert !Has(s[0], FLAG_Q_P);
    assert (si + rest)[0] == 0x10 && (si + rest)[1..] == si[1..] + rest;
    assert Kind(0x10) == ENC_UNIT;
    assert BodyDecode(ENC_UNIT, si[1..] + rest) == Ok(Decoded(Unit, si[1..] + rest));
    assert ExtDecode(si + rest) == Ok(Decoded(MsgExt(0x10, Unit), si[1..] + rest));
    assert FullId(0x10) == 0x10 && IsMandatory(0x10);
    assert QueryExtHandler(MsgExt(0x10, Unit), NullQuery) == Err(ExtensionMandatoryAndUnknown);
  }

  /*------------------ the corrected query encoder ------------------*/

  /** The body extension, framed by the extension codec, flagged Z when the
      consolidation or the source info follows. */
  function QueryBodyExt(q: Query): (e: MsgExt)
    ensures WellFormed(e) && FullId(e.header) == EXT_QUERY_BODY
    ensures HasNext(e.header) <==> QueryNeedsConsolidation(q) || QueryNeedsInfo(q)
  {
    ZFlagged(EXT_QUERY_BODY, QueryNeedsConsolidation(q) || QueryNeedsInfo(q));
    MsgExt(EXT_QUERY_BODY | Flag(QueryNeedsConsolidation(q) || QueryNeedsInfo(q), FLAG_Z), Zbuf(ValueEncode(q.value)))
  }

  /** The consolidation extension: the mode as the zint type receives it,
      flagged Z when the source info follows. */
  function ConsolidationExtFixed(q: Query): (e: MsgExt)
    ensures WellFormed(e) && FullId(e.header) == EXT_CONSOLIDATION
    ensures HasNext(e.header) <==> QueryNeedsInfo(q)
  {
    ZFlagged(EXT_CONSOLIDATION, QueryNeedsInfo(q));
    MsgExt(EXT_CONSOLIDATION | Flag(QueryNeedsInfo(q), FLAG_Z), Zint(ConsolidationWire(q.consolidation)))
  }

  /** The extensions `_z_query_encode` means to write, in its order: the
      body when there is a value, the consolidation when the mode is not
      AUTO, the source info (with its header, framed, corrected) when the
      id is valid. */
  function QueryExts(q: Query): (exts: seq<MsgExt>)
    ensures |exts| > 0 <==> QueryNeedsBody(q) || QueryNeedsConsolidation(q) || QueryNeedsInfo(q)
  {
    var i := if QueryNeedsInfo(q) then [SourceInfoExtFixed(q.info, false)] else [];
    var c := if QueryNeedsConsolidation(q) then [ConsolidationExtFixed(q)] + i else i;
    if QueryNeedsBody(q) then [QueryBodyExt(q)] + c else c
  }

  /** An extension put in front of a chain, flagged Z exactly when the
      chain is not empty, gives a chain. */
  lemma ChainedCons(e: MsgExt, tail: seq<MsgExt>)
    requires WellFormed(e) && (HasNext(e.header) <==> |tail| > 0)
    requires |tail| > 0 ==> Chained(tail)
    ensures Chained([e] + tail)
  {
    var s := [e] + tail;
    forall i | 0 <= i < |s|
      ensures WellFormed(s[i]) && (HasNext(s[i].header) <==> i < |s| - 1)
    {
      if i > 0 {
        assert s[i] == tail[i - 1];
      }
    }
  }

  /** The chain is one an encoder lays out: each body of its header's kind,
      the Z flag on all but the last. */
  lemma QueryExtsChained(q: Query)
    requires QueryNeedsBody(q) || QueryNeedsConsolidation(q) || QueryNeedsInfo(q)
    ensures Chained(QueryExts(q))
  {
    var i := if QueryNeedsInfo(q) then [SourceInfoExtFixed(q.info, false)] else [];
    var c := if QueryNeedsConsolidation(q) then [ConsolidationExtFixed(q)] + i else i;
    if QueryNeedsInfo(q) {
      ChainedCons(SourceInfoExtFixed(q.info, false), []);
      assert [SourceInfoExtFixed(q.info, false)] + [] == i;
    }
    if QueryNeedsConsolidation(q) {
      ChainedCons(ConsolidationExtFixed(q), i);
    }
    if QueryNeedsBody(q) {
      ChainedCons(QueryBodyExt(q), c);
    }
  }

  /** `_z_query_encode` with every extension written whole: header,
      parameters, then the chain (absent when the header has no Z). */
  function QueryEncodeFixed(q: Query): (r: Bytes)
    ensures |r| > 0 && r[0] == QueryHeader(q)
    ensures Has(r[0], FLAG_Z_Z) <==> |QueryExts(q)| > 0
  {
    [QueryHeader(q)] + (if HasParameters(q) then BytesEncode(q.parameters) else []) + ChainEncode(QueryExts(q))
  }

  /** Queries whose every field survives: AUTO (which is not written) or a
      mode that fits the zint type, and a valid or null source info. */
  predicate QueryFixedRoundTrips(q: Query) {
    (q.consolidation == CONSOLIDATION_AUTO || 0 <= q.consolidation <= U64_MAX) && CanonicalSourceInfo(q.info)
  }

  /** Each extension of the chain sets its own field. */
  lemma QueryHandlerSteps(q: Query, ctx: Query)
    requires QueryFixedRoundTrips(q)
    ensures QueryExtHandlerFixed(QueryBodyExt(q), ctx) == Ok(ctx.(value := q.value))
    ensures QueryNeedsConsolidation(q) ==>
            QueryExtHandlerFixed(ConsolidationExtFixed(q), ctx) == Ok(ctx.(consolidation := q.consolidation))
    ensures QueryNeedsInfo(q) && ctx.info.id == EmptyId ==>
            QueryExtHandlerFixed(SourceInfoExtFixed(q.info, false), ctx) == Ok(ctx.(info := q.info))
  {
    QueryBodyStep(q, ctx);
    if QueryNeedsConsolidation(q) {
      QueryConsolidationStep(q, ctx);
    }
    if QueryNeedsInfo(q) && ctx.info.id == EmptyId {
      QueryInfoStep(q, ctx);
    }
  }

  lemma QueryConsolidationStep(q: Query, ctx: Query)
    requires 0 <= q.consolidation <= U64_MAX
    ensures QueryExtHandlerFixed(ConsolidationExtFixed(q), ctx) == Ok(ctx.(consolidation := q.consolidation))
  {
    var e := ConsolidationExtFixed(q);
    assert ConsolidationWire(q.consolidation) == q.consolidation;
    assert ZintValue(e) == q.consolidation;
    assert QueryExtHandler(e, ctx) == Ok(ctx.(consolidation := q.consolidation));
  }

  lemma QueryBodyStep(q: Query, ctx: Query)
    ensures QueryExtHandlerFixed(QueryBodyExt(q), ctx) == Ok(ctx.(value := q.value))
  {
    ValueRoundTrip(q.value, []);
    assert ValueEncode(q.value) + [] == ValueEncode(q.value);
  }

  lemma QueryInfoStep(q: Query, ctx: Query)
    requires IdCheck(q.info.id) && ctx.info.id == EmptyId
    ensures QueryExtHandlerFixed(SourceInfoExtFixed(q.info, false), ctx) == Ok(ctx.(info := q.info))
  {
    SourceInfoFixedRoundTrip(ctx.info, q.info, []);
    assert SourceInfoEncodeFixed(q.info) + [] == SourceInfoEncodeFixed(q.info);
  }

  /** One step of the fold. */
  lemma FoldStep<C>(handler: (MsgExt, C) -> Result<C>, ctx: C, e: MsgExt, tail: seq<MsgExt>, next: C)
    requires handler(e, ctx) == Ok(next)
    ensures Fold(handler, ctx, [e] + tail) == Fold(handler, next, tail)
  {
    assert ([e] + tail)[1..] == tail;
  }

  /** The handler folds the chain into the query it describes; an AUTO
      mode, which has no extension, is left at the decoder's starting 0. */
  lemma QueryExtsFold(q: Query)
    requires QueryFixedRoundTrips(q)
    ensures Fold(QueryExtHandlerFixed, NullQuery.(parameters := q.parameters), QueryExts(q))
            == Ok(if q.consolidation == CONSOLIDATION_AUTO then q.(consolidation := 0) else q)
  {
    var i := if QueryNeedsInfo(q) then [SourceInfoExtFixed(q.info, false)] else [];
    var c := if QueryNeedsConsolidation(q) then [ConsolidationExtFixed(q)] + i else i;
    var c0 := NullQuery.(parameters := q.parameters);
    var c1 := if QueryNeedsBody(q) then c0.(value := q.value) else c0;
    var c2 := if QueryNeedsConsolidation(q) then c1.(consolidation := q.consolidation) else c1;
    var c3 := if QueryNeedsInfo(q) then c2.(info := q.info) else c2;
    QueryHandlerSteps(q, c0);
    QueryHandlerSteps(q, c1);
    QueryHandlerSteps(q, c2);
    if QueryNeedsBody(q) {
      FoldStep(QueryExtHandlerFixed, c0, QueryBodyExt(q), c, c1);
    }
    if QueryNeedsConsolidation(q) {
      FoldStep(QueryExtHandlerFixed, c1, ConsolidationExtFixed(q), i, c2);
    }
    if QueryNeedsInfo(q) {
      FoldStep(QueryExtHandlerFixed, c2, SourceInfoExtFixed(q.info, false), [], c3);
      assert [SourceInfoExtFixed(q.info, false)] + [] == i;
    }
    assert Fold(QueryExtHandlerFixed, c0, QueryExts(q)) == Ok(c3);
    if !QueryNeedsBody(q) {
      assert q.value.encoding == EmptyEncoding && q.value == EmptyValue;
    }
    if !QueryNeedsInfo(q) {
      assert q.info == NullSourceInfo;
    }
  }

  /** The corrected query codec gives back every query whose mode is AUTO
      or fits the zint type, whatever its parameters, value and source id:
      AUTO comes back as the decoder's starting mode 0, the rest exactly. */
  lemma QueryFixedRoundTrip(q: Query, rest: Bytes)
    requires QueryFixedRoundTrips(q)
    ensures var s := QueryEncodeFixed(q) + rest;
            QueryDecodeFixed(s[1..], s[0])
              == Ok(Decoded(if q.consolidation == CONSOLIDATION_AUTO then q.(consolidation := 0) else q, rest))
  {
    var f := if HasParameters(q) then BytesEncode(q.parameters) else [];
    var exts := QueryExts(q);
    var chain := ChainEncode(exts);
    var s := QueryEncodeFixed(q) + rest;
    var c0 := NullQuery.(parameters := q.parameters);
    Assoc([QueryHeader(q)] + f, chain, rest);
    Assoc([QueryHeader(q)], f, chain + rest);
    assert s[0] == QueryHeader(q) && s[1..] == f + (chain + rest);
    ParametersFieldRoundTrip(q, s[0], chain + rest);
    QueryExtsFold(q);
    if |exts| > 0 {
      QueryExtsChained(q);
      ExtDecodeIterChain(exts, QueryExtHandlerFixed, c0, rest);
    } else {
      assert chain + rest == rest;
    }
  }

  /*------------------ Reply: the Z flag is not consulted ------------------*/

  /** A reply with nothing to put in extensions is written without the Z
      flag: header, timestamp, encoding, payload. */
  lemma PlainReplyLayout(r: Reply, rest: Bytes)
    requires r.consolidation == CONSOLIDATION_AUTO && r.sourceInfo == NullSourceInfo
    ensures var s := ReplyEncode(r) + rest;
            var enc := if HasEncoding(r.value.encoding) then EncodingEncode(r.value.encoding) else [];
            s[0] == ReplyHeader(r) && !Has(s[0], FLAG_Z_Z)
            && s[1..] == TimestampField(r.timestamp) + (enc + (BytesEncode(r.value.payload) + rest))
  {
    assert !IdCheck(NullSourceInfo.id) by { IdCheckNonZero(NullSourceInfo.id); }
    var h := [ReplyHeader(r)];
    var ts := TimestampField(r.timestamp);
    var enc := if HasEncoding(r.value.encoding) then EncodingEncode(r.value.encoding) else [];
    var pl := BytesEncode(r.value.payload);
    assert ReplyEncode(r) == h + ts + enc + pl;
    Assoc(h + ts + enc, pl, rest);
    Assoc(h + ts, enc, pl + rest);
    Assoc(h, ts, enc + (pl + rest));
  }

  /** As written, the Reply decoder reads an extension chain even without
      the Z flag. A reply with no timestamp, encoding, extensions or payload
      is the header and one zero byte (the empty payload); the decoder takes
      that byte for an extension and then finds no payload. */
  lemma PlainReplyFails()
    ensures var s := ReplyEncode(Reply(NullTimestamp, EmptyValue, CONSOLIDATION_AUTO, NullSourceInfo));
            ReplyDecode(s[1..], s[0]).Err?
  {
    var r := Reply(NullTimestamp, EmptyValue, CONSOLIDATION_AUTO, NullSourceInfo);
    assert !TimestampCheck(NullTimestamp) by { IdCheckNonZero(EmptyId); }
    PlainReplyLayout(r, []);
    var s := ReplyEncode(r);
    assert BytesEncode([]) == [0];
    assert s[1..] == [0];
    assert !Has(s[0], FLAG_R_T) && !Has(s[0], FLAG_R_E);
    assert Kind(0) == ENC_UNIT && FullId(0) == 0 && !IsMandatory(0) && !HasNext(0);
    assert ExtDecode([0]) == Ok(Decoded(MsgExt(0, Unit), []));
    var ctx := NullReply.(timestamp := NullTimestamp, value := Value(EmptyEncoding, []));
    assert ExtDecodeIter([0], ReplyExtHandler, ctx) == Ok(Decoded(ctx, []));
  }

  /** `_z_reply_decode` reading the chain only when the Z flag is set. */
  function ReplyDecodeFixed(s: Bytes, header: byte): (r: Result<Decoded<Reply>>)
    ensures Has(header, FLAG_Z_Z) ==> r == ReplyDecode(s, header)
  {
    var ts :- TimestampIf(s, Has(header, FLAG_R_T));
    var enc :- if Has(header, FLAG_R_E) then EncodingDecode(ts.rest) else Ok(Decoded(EmptyEncoding, ts.rest));
    var ex :- ExtsIf(enc.rest, Has(header, FLAG_Z_Z), ReplyExtHandler,
                     NullReply.(timestamp := ts.value, value := Value(enc.value, [])));
    var pl :- BytesDecode(ex.rest);
    Ok(Decoded(Reply(ts.value, Value(enc.value, pl.value), ex.value.consolidation, ex.value.sourceInfo), pl.rest))
  }

  /** With the fix every reply without source info decodes: an AUTO
      consolidation comes back as the decoder's starting value, any other
      mode exactly. */
  lemma ReplyFixedRoundTrip(r: Reply, rest: Bytes)
    requires CanonicalTimestamp(r.timestamp) && r.sourceInfo == NullSourceInfo
    requires r.consolidation == CONSOLIDATION_AUTO || 0 <= r.consolidation <= U64_MAX
    ensures var s := ReplyEncode(r) + rest;
            ReplyDecodeFixed(s[1..], s[0])
              == Ok(Decoded(if r.consolidation == CONSOLIDATION_AUTO then r.(consolidation := 0) else r, rest))
  {
    var s := ReplyEncode(r) + rest;
    if r.consolidation == CONSOLIDATION_AUTO {
      var enc := if HasEncoding(r.value.encoding) then EncodingEncode(r.value.encoding) else [];
      var pl := BytesEncode(r.value.payload);
      PlainReplyLayout(r, rest);
      TimestampFieldRoundTrip(r.timestamp, enc + (pl + rest));
      ReplyEncodingField(r, Has(s[0], FLAG_R_E), pl + rest);
      BytesRoundTrip(r.value.payload, rest);
    } else {
      ReplyRoundTrip(r, rest);
    }
  }

  /*------------------ Err: the I flag is never written ------------------*/

  /** As written, the Err encoder never sets the I flag, which the decoder
      reads into `isInfrastructure`: an infrastructure error comes back, if
      at all, as an ordinary one. */
  lemma InfrastructureErrIsLost(m: ErrorMsg, rest: Bytes)
    requires m.isInfrastructure
    ensures var s := ErrEncode(m) + rest;
            var r := ErrDecode(s[1..], s[0]);
            (r.Ok? ==> !r.value.value.isInfrastructure) && r != Ok(Decoded(m, rest))
  {
    var s := ErrEncode(m) + rest;
    assert s[0] == ErrHeader(m) && !Has(s[0], FLAG_E_I);
  }

  /** The Err header with the I flag set for an infrastructure error. */
  function ErrHeaderFixed(m: ErrorMsg): (h: byte)
    ensures Mid(h) == MID_ERR
    ensures Has(h, FLAG_E_T) <==> TimestampCheck(m.timestamp)
    ensures Has(h, FLAG_E_I) <==> m.isInfrastructure
    ensures Has(h, FLAG_Z_Z) <==> IdCheck(m.sourceInfo.id) || m.extValue.Some?
  {
    MakeHeader(MID_ERR, TimestampCheck(m.timestamp), m.isInfrastructure, IdCheck(m.sourceInfo.id) || m.extValue.Some?)
  }

  /** `_z_err_encode` with that header: the as-written header with the I
      flag added for an infrastructure error, then the fields as written. */
  function ErrEncodeFixed(m: ErrorMsg): (r: Bytes)
    ensures |r| > 0 && r[0] == ErrHeaderFixed(m)
    ensures r[0] == ErrHeader(m) | Flag(m.isInfrastructure, FLAG_E_I)
  {
    [ErrHeaderFixed(m)] + ErrEncode(m)[1..]
  }

  /** The bytes of the corrected Err without source info or value: the
      header, the code, the timestamp. */
  lemma ErrFixedLayout(m: ErrorMsg)
    requires m.sourceInfo == NullSourceInfo && m.extValue.None?
    ensures ErrEncodeFixed(m) == [ErrHeaderFixed(m)] + (ZintEncode(m.code) + TimestampField(m.timestamp))
  {
    assert !IdCheck(NullSourceInfo.id) by { IdCheckNonZero(NullSourceInfo.id); }
    assert ErrEncode(m) == [ErrHeader(m)] + (ZintEncode(m.code) + TimestampField(m.timestamp));
  }

  /** With the I flag written, an infrastructure error keeps its kind: every
      err message without source info or value survives the trip. */
  lemma ErrFixedRoundTrip(m: ErrorMsg, rest: Bytes)
    requires CanonicalTimestamp(m.timestamp) && m.sourceInfo == NullSourceInfo && m.extValue.None?
    ensures var s := ErrEncodeFixed(m) + rest;
            ErrDecode(s[1..], s[0]) == Ok(Decoded(m, rest))
  {
    var s := ErrEncodeFixed(m) + rest;
    var h := ErrHeaderFixed(m);
    var tail := TimestampField(m.timestamp) + rest;
    ErrFixedLayout(m);
    Behead2(h, ZintEncode(m.code), TimestampField(m.timestamp), rest);
    ZintRoundTrip(m.code, tail);
    TimestampFieldRoundTrip(m.timestamp, rest);
    ErrDecodeOfFields(s[1..], h, m, tail, rest);
  }

  /** The Err decoder put together from what each of its fields decodes to,
      for a message without extensions. */
  lemma ErrDecodeOfFields(s: Bytes, h: byte, m: ErrorMsg, afterCode: Bytes, rest: Bytes)
    requires m.sourceInfo == NullSourceInfo && m.extValue.None?
    requires Has(h, FLAG_E_I) == m.isInfrastructure && !Has(h, FLAG_Z_Z)
    requires ZintDecode(s) == Ok(Decoded(m.code as nat, afterCode))
    requires TimestampIf(afterCode, Has(h, FLAG_E_T)) == Ok(Decoded(m.timestamp, rest))
    ensures ErrDecode(s, h) == Ok(Decoded(m, rest))
  {
  }

  /*------------------ Pull: the source-info extension has no length ------------------*/

  /** As written, a Pull carrying a one-byte source id is its unframed
      source-info extension, which the iterator rejects under a Z header. */
  lemma UnframedPullFails(info: SourceInfo, header: byte)
    requires IdLen(info.id) == 1 && info.entityId < 0x80 && info.sourceSn < 0x80 && Has(header, FLAG_Z_Z)
    ensures PullDecode(PullEncode(header, Pull(info)), header).Err?
  {
    var si := SourceInfoEncode(info);
    ShortSourceInfo(info);
    assert EXT_SOURCE_INFO | Flag(false, FLAG_Z_Z) == EXT_SOURCE_INFO;
    var body := [EXT_SOURCE_INFO] + si;
    assert PullEncode(header, Pull(info)) == body;
    assert ZintDecode(si) == Ok(Decoded(16, si[1..]));
    assert BytesDecode(si).Err?;
    assert Uint8Decode(body) == Ok(Decoded(EXT_SOURCE_INFO, si));
    assert ExtDecode(body).Err?;
  }

  /*------------------ Ack: the header carries the ERR id ------------------*/

  /** As written, an Ack goes out with the ERR message id, so a receiver
      that dispatches on the id takes it for an Err. */
  lemma AckCarriesErrId(a: Ack)
    ensures Mid(AckEncode(a)[0]) == MID_ERR && MID_ERR != MID_ACK
  {
  }

  /** The Ack header with the ACK id. */
  function AckHeaderFixed(a: Ack): (h: byte)
    ensures Mid(h) == MID_ACK
    ensures Has(h, FLAG_A_T) <==> TimestampCheck(a.timestamp)
    ensures Has(h, FLAG_Z_Z) <==> IdCheck(a.sourceInfo.id)
  {
    MakeHeader(MID_ACK, TimestampCheck(a.timestamp), false, IdCheck(a.sourceInfo.id))
  }

  /** `_z_ack_encode` starting from the ACK id; the rest as written. */
  function AckEncodeFixed(a: Ack): (r: Bytes)
    ensures |r| > 0 && r[0] == AckHeaderFixed(a)
  {
    [AckHeaderFixed(a)] + TimestampField(a.timestamp)
    + (if IdCheck(a.sourceInfo.id) then SourceInfoExt(a.sourceInfo, false) else [])
  }

  /** The corrected Ack is announced as an Ack and decodes back. */
  lemma AckFixedRoundTrip(a: Ack, rest: Bytes)
    requires CanonicalTimestamp(a.timestamp) && a.sourceInfo == NullSourceInfo
    ensures var s := AckEncodeFixed(a) + rest;
            Mid(s[0]) == MID_ACK && AckDecode(s[1..], s[0]) == Ok(Decoded(a, rest))
  {
    assert !IdCheck(NullSourceInfo.id) by { IdCheckNonZero(NullSourceInfo.id); }
    var s := AckEncodeFixed(a) + rest;
    var h := AckHeaderFixed(a);
    assert AckEncodeFixed(a) == [h] + TimestampField(a.timestamp);
    Behead(h, TimestampField(a.timestamp), rest);
    TimestampFieldRoundTrip(a.timestamp, rest);
    assert TimestampIf(s[1..], Has(h, FLAG_A_T)) == Ok(Decoded(a.timestamp, rest));
  }
}
