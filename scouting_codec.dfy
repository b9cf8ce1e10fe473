/** The scouting message codec (`_z_scout_*`, `_z_hello_*`,
    `_z_scouting_message_*`) as methods over the write buffer and the read
    cursor. Each method is proved to append, or to read, exactly what the
    function of the same name in module Scouting describes. */
module ScoutingCodec {
  import opened Results
  import opened Wire
  import opened Buffers
  import opened Fields
  import opened Scouting
  import opened ExtCodec
  import MessageCodec

  /*------------------ Scout ------------------*/

  /** `_z_scout_encode`: the header is not used. */
  method EncodeScout(w: WBuf, m: Scout)
    modifies w
    ensures w.bytes == old(w.bytes) + ScoutEncode(m)
  {
    w.Write(m.version);
    var cbyte: byte := m.what & 0x07;
    var zidLen := IdLenByte(m.zid);
    if zidLen > 0 {
      cbyte := cbyte | FLAG_SCOUT_I;
      cbyte := cbyte | (((zidLen - 1) & 0x0F) << 4);
    }
    assert cbyte == ScoutCByte(m);
    w.Write(cbyte);
    w.WriteBytes(m.zid[..zidLen]);
  }

  /** `_z_scout_decode` / `_na`: the header is not used. */
  method DecodeScout(z: ZBuf) returns (r: Result<Scout>)
    requires z.Valid()
    modifies z
    ensures z.Valid() && Pair(r, z.Rest()) == ScoutDecode(old(z.Rest()))
  {
    var version := z.DecodeUint8();
    if version.Err? {
      return Err(version.error);
    }
    var cbyte := z.DecodeUint8();
    if cbyte.Err? {
      return Err(cbyte.error);
    }
    var zid := EmptyId;
    if cbyte.value & FLAG_SCOUT_I != 0 {
      var b := z.ReadBytes(AnnouncedIdLen(cbyte.value));
      if b.Err? {
        return Err(b.error);
      }
      zid := IdFromBytes(b.value);
    }
    r := Ok(Scout(version.value, cbyte.value & 0x07, zid));
  }

  /*------------------ Hello ------------------*/

  /** `_z_hello_encode` */
  method EncodeHello(w: WBuf, header: byte, m: Hello)
    modifies w
    ensures w.bytes == old(w.bytes) + HelloEncode(header, m)
  {
    ghost var w0 := w.bytes;
    w.Write(m.version);
    var zidLen := IdLenByte(m.zid);
    var cbyte: byte := m.whatami & 0x03;
    cbyte := cbyte | (((zidLen - 1) & 0x0F) << 4);
    assert cbyte == HelloCByte(m);
    w.Write(cbyte);
    w.WriteBytes(m.zid[..zidLen]);
    ghost var idPart := [m.version, cbyte] + m.zid[..zidLen];
    assert w.bytes == w0 + idPart;
    if header & FLAG_HELLO_L != 0 {
      MessageCodec.EncodeLocators(w, m.locators);
      Assoc(w0, idPart, LocatorsEncode(m.locators));
    } else {
      assert idPart + [] == idPart;
    }
  }

  /** `_z_hello_decode` / `_na` */
  method DecodeHello(z: ZBuf, header: byte) returns (r: Result<Hello>)
    requires z.Valid()
    modifies z
    ensures z.Valid() && Pair(r, z.Rest()) == HelloDecode(old(z.Rest()), header)
  {
    var version := z.DecodeUint8();
    if version.Err? {
      return Err(version.error);
    }
    var cbyte := z.DecodeUint8();
    if cbyte.Err? {
      return Err(cbyte.error);
    }
    var whatami := cbyte.value & 0x03;
    var b := z.ReadBytes(AnnouncedIdLen(cbyte.value));
    if b.Err? {
      return Err(b.error);
    }
    var zid := IdFromBytes(b.value);
    var locators: seq<Locator> := [];
    if header & FLAG_HELLO_L != 0 {
      var ls := MessageCodec.DecodeLocators(z);
      if ls.Err? {
        return Err(ls.error);
      }
      locators := ls.value;
    }
    r := Ok(Hello(version.value, whatami, zid, locators));
  }

  /*------------------ scouting message ------------------*/

  /** `_z_scouting_message_encode`: the header is written before the id is
      looked at, so an unknown id leaves it behind. */
  method EncodeScoutingMessage(w: WBuf, m: ScoutingMessage) returns (r: Status)
    requires BodyAgrees(m)
    modifies w
    ensures r.Ok? <==> ScoutingMessageEncode(m).Ok?
    ensures r.Ok? ==> w.bytes == old(w.bytes) + ScoutingMessageEncode(m).value
    ensures r.Err? ==> r.error == TransportUnknown && w.bytes == old(w.bytes) + [m.header]
  {
    ghost var w0 := w.bytes;
    w.Write(m.header);
    if Mid(m.header) == MID_SCOUT {
      EncodeScout(w, m.body.scout);
      Assoc(w0, [m.header], ScoutEncode(m.body.scout));
      r := OK;
    } else if Mid(m.header) == MID_HELLO {
      EncodeHello(w, m.header, m.body.hello);
      Assoc(w0, [m.header], HelloEncode(m.header, m.body.hello));
      r := OK;
    } else {
      r := Err(TransportUnknown);
    }
  }

  /** `_z_scouting_message_decode` / `_na`. The source wraps the header and
      body in a do-while whose every path sets `is_last` or an error, so its
      body runs once; `header` is the header field the decoder leaves in the
      message, 0xFF when no byte could be read. */
  method DecodeScoutingMessage(z: ZBuf) returns (r: Result<ScoutingMessage>, header: byte)
    requires z.Valid()
    modifies z
    ensures z.Valid() && Pair(r, z.Rest()) == ScoutingMessageDecode(old(z.Rest()))
    ensures header == DecodedHeader(old(z.Rest()))
  {
    var h := z.DecodeUint8();
    if h.Err? {
      return Err(h.error), 0xFF;
    }
    header := h.value;
    var body: ScoutingBody;
    if Mid(header) == MID_SCOUT {
      var sc := DecodeScout(z);
      if sc.Err? {
        return Err(sc.error), header;
      }
      body := ScoutBody(sc.value);
    } else if Mid(header) == MID_HELLO {
      var he := DecodeHello(z, header);
      if he.Err? {
        return Err(he.error), header;
      }
      body := HelloBody(he.value);
    } else {
      return Err(TransportUnknown), header;
    }
    if header & FLAG_EXT_Z != 0 {
      var skip := SkipNonMandatoryExts(z);
      if skip.Err? {
        return Err(skip.error), header;
      }
    }
    r := Ok(ScoutingMessage(header, body));
  }
}
