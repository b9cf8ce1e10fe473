/** Message extensions (`_z_msg_ext_t`). An extension is a header byte
    followed by a body whose kind the header names: unit (no bytes), zint (one
    zint) or zbuf (a length-prefixed byte slice). The header's top bit (Z) says
    that another extension follows; bit 0x10 (M) marks an extension the
    receiver must understand; the low seven bits are its full id.

    The C bodies of the extension codec and of `_z_msg_ext_decode_iter` are not
    part of this model; they are given here the layout the header describes. */
module Ext {
  import opened Results
  import opened Wire

  /** Body kinds, in bits 0x60 of the header. */
  const ENC_UNIT: byte := 0x00
  const ENC_ZINT: byte := 0x20
  const ENC_ZBUF: byte := 0x40
  const ENC_MASK: byte := 0x60
  /** Mandatory flag. */
  const FLAG_M: byte := 0x10
  /** "Another extension follows". */
  const FLAG_Z: byte := 0x80

  function Kind(h: byte): byte {
    h & ENC_MASK
  }

  /** `_Z_EXT_FULL_ID`: kind, mandatory flag and id, without the Z flag. */
  function FullId(h: byte): byte {
    h & 0x7F
  }

  predicate IsMandatory(h: byte) {
    h & FLAG_M != 0
  }

  predicate HasNext(h: byte) {
    h & FLAG_Z != 0
  }

  datatype ExtBody =
    | Unit               // _z_msg_ext_unit_t
    | Zint(n: nat)       // _z_msg_ext_zint_t
    | Zbuf(data: Bytes)  // _z_msg_ext_zbuf_t

  datatype MsgExt = MsgExt(header: byte, body: ExtBody)

  /** The body is of the kind its header names (the C union is read by that kind). */
  predicate WellFormed(e: MsgExt) {
    match e.body
    case Unit => Kind(e.header) == ENC_UNIT
    case Zint(_) => Kind(e.header) == ENC_ZINT
    case Zbuf(_) => Kind(e.header) == ENC_ZBUF
  }

  /** The bytes of a zbuf body, or none for the other kinds. */
  function ZbufBytes(e: MsgExt): Bytes {
    if e.body.Zbuf? then e.body.data else []
  }

  /** The value of a zint body, or 0 for the other kinds. */
  function ZintValue(e: MsgExt): nat {
    if e.body.Zint? then e.body.n else 0
  }

  /*------------------ per-kind bodies ------------------*/

  /** `_z_msg_ext_encode_unit` / `_zint` / `_zbuf` */
  function BodyEncode(b: ExtBody): Bytes {
    match b
    case Unit => []
    case Zint(v) => ZintEncode(v)
    case Zbuf(v) => BytesEncode(v)
  }

  /** `_z_msg_ext_decode_unit` / `_zint` / `_zbuf` (and their `_na` variants),
      selected by the kind bits of the header. */
  function BodyDecode(kind: byte, s: Bytes): (r: Result<Decoded<ExtBody>>)
    ensures Consumes(s, r)
    ensures r.Ok? ==> WellFormed(MsgExt(kind, r.value.value))
    ensures r.Ok? <==> (kind == ENC_UNIT || (kind == ENC_ZINT && ZintDecode(s).Ok?)
                        || (kind == ENC_ZBUF && BytesDecode(s).Ok?))
  {
    if kind == ENC_UNIT then Ok(Decoded(Unit, s))
    else if kind == ENC_ZINT then
      var v :- ZintDecode(s);
      Ok(Decoded(Zint(v.value), v.rest))
    else if kind == ENC_ZBUF then
      var v :- BytesDecode(s);
      Ok(Decoded(Zbuf(v.value), v.rest))
    else Err(DeserializationFailed)
  }

  /** Each kind's decoder gives back the body its encoder wrote. */
  lemma BodyRoundTrip(h: byte, b: ExtBody, rest: Bytes)
    requires WellFormed(MsgExt(h, b))
    ensures BodyDecode(Kind(h), BodyEncode(b) + rest) == Ok(Decoded(b, rest))
  {
    match b
    case Unit => assert BodyEncode(b) + rest == rest;
    case Zint(v) => ZintRoundTrip(v, rest);
    case Zbuf(v) => BytesRoundTrip(v, rest);
  }

  /*------------------ whole extension ------------------*/

  /** `_z_msg_ext_encode`: the header as given, then the body. */
  function ExtEncode(e: MsgExt): (r: Bytes)
    ensures |r| > 0 && r[0] == e.header
  {
    [e.header] + BodyEncode(e.body)
  }

  /** `_z_msg_ext_decode` and `_z_msg_ext_decode_na`: the header, then the body
      of the kind it names; the fourth kind (0x60) is not decodable. */
  function ExtDecode(s: Bytes): (r: Result<Decoded<MsgExt>>)
    ensures Consumes(s, r)
    ensures r.Ok? ==> |r.value.rest| < |s| && r.value.value.header == s[0]
    ensures r.Ok? ==> WellFormed(r.value.value)
    ensures |s| > 0 && Kind(s[0]) == 0x60 ==> r == Err(DeserializationFailed)
  {
    var h :- Uint8Decode(s);
    var b :- BodyDecode(Kind(h.value), h.rest);
    Ok(Decoded(MsgExt(h.value, b.value), b.rest))
  }

  /** Round trip of a whole extension. */
  lemma ExtRoundTrip(e: MsgExt, rest: Bytes)
    requires WellFormed(e)
    ensures ExtDecode(ExtEncode(e) + rest) == Ok(Decoded(e, rest))
  {
    var s := ExtEncode(e) + rest;
    assert s[0] == e.header && s[1..] == BodyEncode(e.body) + rest;
    BodyRoundTrip(e.header, e.body, rest);
  }

  /*------------------ iteration over a chain of extensions ------------------*/

  /** `_z_msg_ext_decode_iter`: decodes extensions one at a time and hands each
      to `handler`, which updates the message being decoded; it stops after an
      extension without the Z flag, and at the first error. */
  function ExtDecodeIter<C>(s: Bytes, handler: (MsgExt, C) -> Result<C>, ctx: C): (r: Result<Decoded<C>>)
    ensures r.Ok? ==> |r.value.rest| < |s|
    decreases |s|
  {
    var e :- ExtDecode(s);
    var c :- handler(e.value, ctx);
    if HasNext(e.value.header) then ExtDecodeIter(e.rest, handler, c)
    else Ok(Decoded(c, e.rest))
  }

  /** A chain as an encoder lays it out: well-formed extensions, every one but
      the last carrying the Z flag. */
  predicate Chained(exts: seq<MsgExt>) {
    |exts| > 0
    && (forall i :: 0 <= i < |exts| ==> WellFormed(exts[i]))
    && (forall i :: 0 <= i < |exts| ==> (HasNext(exts[i].header) <==> i < |exts| - 1))
  }

  function ChainEncode(exts: seq<MsgExt>): Bytes {
    if |exts| == 0 then [] else ExtEncode(exts[0]) + ChainEncode(exts[1..])
  }

  /** The handler applied to each extension in turn, stopping at the first error. */
  function Fold<C>(handler: (MsgExt, C) -> Result<C>, ctx: C, exts: seq<MsgExt>): Result<C> {
    if |exts| == 0 then Ok(ctx)
    else
      var c :- handler(exts[0], ctx);
      Fold(handler, c, exts[1..])
  }

  /** Decoding an encoded chain hands the handler exactly the chain's
      extensions, in order, and stops right after the last one. */
  lemma {:induction false} ExtDecodeIterChain<C>(exts: seq<MsgExt>, handler: (MsgExt, C) -> Result<C>, ctx: C, rest: Bytes)
    requires Chained(exts)
    ensures ExtDecodeIter(ChainEncode(exts) + rest, handler, ctx)
            == (match Fold(handler, ctx, exts)
                case Ok(c) => Ok(Decoded(c, rest))
                case Err(e) => Err(e))
    decreases |exts|
  {
    var tail := exts[1..];
    assert ChainEncode(exts) + rest == ExtEncode(exts[0]) + (ChainEncode(tail) + rest);
    ExtRoundTrip(exts[0], ChainEncode(tail) + rest);
    if |exts| > 1 {
      assert Chained(tail) by {
        assert forall i :: 0 <= i < |tail| ==> tail[i] == exts[i + 1];
      }
      var c := handler(exts[0], ctx);
      if c.Ok? {
        ExtDecodeIterChain(tail, handler, c.value, rest);
      }
    } else {
      assert ChainEncode(tail) + rest == rest;
    }
  }

  /** The handler of `_z_msg_ext_skip_non_mandatories`: any mandatory
      extension is an error, any other is passed over. */
  function SkipHandler(e: MsgExt, u: ()): (r: Result<()>)
    ensures r.Err? <==> IsMandatory(e.header)
    ensures r.Err? ==> r.error == ExtensionMandatoryAndUnknown
  {
    if IsMandatory(e.header) then Err(ExtensionMandatoryAndUnknown) else Ok(())
  }

  /** `_z_msg_ext_skip_non_mandatories` */
  function SkipNonMandatories(s: Bytes): Result<Decoded<()>> {
    ExtDecodeIter(s, SkipHandler, ())
  }

  /** Skipping a chain succeeds exactly when none of its extensions is mandatory. */
  lemma {:induction false} SkipChain(exts: seq<MsgExt>, rest: Bytes)
    requires Chained(exts)
    ensures SkipNonMandatories(ChainEncode(exts) + rest).Ok?
            <==> forall i :: 0 <= i < |exts| ==> !IsMandatory(exts[i].header)
    ensures SkipNonMandatories(ChainEncode(exts) + rest).Ok? ==>
            SkipNonMandatories(ChainEncode(exts) + rest).value.rest == rest
  {
    ExtDecodeIterChain(exts, SkipHandler, (), rest);
    FoldSkip(exts);
  }

  lemma {:induction false} FoldSkip(exts: seq<MsgExt>)
    ensures Fold(SkipHandler, (), exts).Ok? <==> forall i :: 0 <= i < |exts| ==> !IsMandatory(exts[i].header)
    decreases |exts|
  {
    if |exts| > 0 {
      FoldSkip(exts[1..]);
      assert forall i :: 1 <= i < |exts| ==> exts[i] == exts[1..][i - 1];
    }
  }
}
