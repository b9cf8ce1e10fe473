/** The extension codec on the buffers: `_z_msg_ext_encode`,
    `_z_msg_ext_decode` (and `_na`), the decode-iteration loop and
    `_z_msg_ext_skip_non_mandatories`. Each method is proved to do what the
    function of the same layout in module Ext describes. */
module ExtCodec {
  import opened Results
  import opened Wire
  import opened Buffers
  import opened Ext

  /** `_z_msg_ext_encode` (and the per-kind `_z_msg_ext_encode_*`). */
  method EncodeExt(w: WBuf, e: MsgExt)
    requires WellFormed(e)
    modifies w
    ensures w.bytes == old(w.bytes) + ExtEncode(e)
  {
    w.Write(e.header);
    match e.body
    case Unit =>
    case Zint(v) => w.EncodeZint(v);
    case Zbuf(v) => w.EncodeBytes(v);
  }

  /** `_z_msg_ext_decode` / `_z_msg_ext_decode_na` (and the per-kind decoders). */
  method DecodeExt(z: ZBuf) returns (r: Result<MsgExt>)
    requires z.Valid()
    modifies z
    ensures z.Valid() && Pair(r, z.Rest()) == ExtDecode(old(z.Rest()))
  {
    var h := z.DecodeUint8();
    if h.Err? {
      return Err(h.error);
    }
    var kind := Kind(h.value);
    if kind == ENC_UNIT {
      r := Ok(MsgExt(h.value, Unit));
    } else if kind == ENC_ZINT {
      var v := z.DecodeZint();
      if v.Err? {
        return Err(v.error);
      }
      r := Ok(MsgExt(h.value, Zint(v.value)));
    } else if kind == ENC_ZBUF {
      var v := z.DecodeBytes();
      if v.Err? {
        return Err(v.error);
      }
      r := Ok(MsgExt(h.value, Zbuf(v.value)));
    } else {
      r := Err(DeserializationFailed);
    }
  }

  /** `_z_msg_ext_decode_iter`: decode an extension, hand it to the handler,
      and go on while the extension's Z flag is set and nothing failed. */
  method DecodeIter<C>(z: ZBuf, handler: (MsgExt, C) -> Result<C>, ctx: C) returns (r: Result<C>)
    requires z.Valid()
    modifies z
    ensures z.Valid() && Pair(r, z.Rest()) == ExtDecodeIter(old(z.Rest()), handler, ctx)
  {
    var c := ctx;
    while true
      invariant z.Valid()
      invariant ExtDecodeIter(old(z.Rest()), handler, ctx) == ExtDecodeIter(z.Rest(), handler, c)
      decreases |z.Rest()|
    {
      var e := DecodeExt(z);
      if e.Err? {
        return Err(e.error);
      }
      var next := handler(e.value, c);
      if next.Err? {
        return Err(next.error);
      }
      c := next.value;
      if !HasNext(e.value.header) {
        return Ok(c);
      }
    }
  }

  /** `_z_msg_ext_skip_non_mandatories` */
  method SkipNonMandatoryExts(z: ZBuf) returns (r: Status)
    requires z.Valid()
    modifies z
    ensures z.Valid() && Pair(r, z.Rest()) == SkipNonMandatories(old(z.Rest()))
  {
    r := DecodeIter(z, SkipHandler, ());
  }
}
