/** Scouting messages (`_z_scouting_message_t`): Scout, sent to discover
    zenoh nodes, and Hello, their answer. A scouting message is a header byte
    (message id in the low five bits) and the body of the message it names;
    a header with the Z flag is followed by extensions, which the decoder
    skips unless one is mandatory. */
module Scouting {
  import opened Results
  import opened Wire
  import opened Ext
  import opened Fields

  const MID_SCOUT: byte := 0x01
  const MID_HELLO: byte := 0x02
  /** Scout control byte: a zenoh id follows. */
  const FLAG_SCOUT_I: byte := 0x08
  /** Hello header: a locator list follows. */
  const FLAG_HELLO_L: byte := 0x20
  /** `_Z_MSG_EXT_FLAG_Z` on the scouting header: extensions follow. */
  const FLAG_EXT_Z: byte := 0x80

  /** The id length as the `uint8_t` the encoders keep it in. */
  function IdLenByte(id: Zid): (b: byte)
    ensures b as nat == IdLen(id) && b <= 16
  {
    NatByte(IdLen(id));
    IdLen(id) as byte
  }

  /** A length nibble in the high half of a byte, what is below it in the
      low half: each comes back out. */
  lemma NibbleBits(low: byte, k: byte)
    requires low < 16 && k < 16
    ensures ((low | (k << 4)) & 0xF0) >> 4 == k
    ensures (low | (k << 4)) & 0x0F == low
  {
  }

  /** The id length a control byte announces: its high nibble plus one. */
  function AnnouncedIdLen(c: byte): (n: nat)
    ensures 1 <= n <= ID_SIZE
  {
    ((c & 0xF0) >> 4) as nat + 1
  }

  /*------------------ Scout ------------------*/

  datatype Scout = Scout(version: byte, what: byte, zid: Zid)

  /** The control byte of `_z_scout_encode`: the `what` bits, then, when the
      id is valid, the I flag and the id length minus one in the high nibble. */
  function ScoutCByte(m: Scout): (c: byte)
    ensures c & 0x07 == m.what & 0x07
    ensures c & FLAG_SCOUT_I != 0 <==> IdCheck(m.zid)
    ensures IdCheck(m.zid) ==> (((c & 0xF0) >> 4) as nat) + 1 == IdLen(m.zid)
  {
    var n := IdLenByte(m.zid);
    if n > 0 then
      var k := (n - 1) & 0x0F;
      assert k == n - 1;
      NibbleBits((m.what & 0x07) | FLAG_SCOUT_I, k);
      (m.what & 0x07) | FLAG_SCOUT_I | (k << 4)
    else m.what & 0x07
  }

  /** `_z_scout_encode`: version, control byte, the significant id bytes. */
  function ScoutEncode(m: Scout): Bytes {
    [m.version, ScoutCByte(m)] + m.zid[..IdLen(m.zid)]
  }

  /** `_z_scout_decode` / `_na`: version, control byte, and the id bytes the
      control byte announces. */
  function ScoutDecode(s: Bytes): (r: Result<Decoded<Scout>>)
    ensures r.Ok? ==> |s| >= 2 && r.value.value.version == s[0] && r.value.value.what == s[1] & 0x07
    ensures r.Ok? && s[1] & FLAG_SCOUT_I == 0 ==> r.value.value.zid == EmptyId && r.value.rest == s[2..]
  {
    var v :- Uint8Decode(s);
    var c :- Uint8Decode(v.rest);
    if c.value & FLAG_SCOUT_I != 0 then
      var b :- ReadBytes(c.rest, AnnouncedIdLen(c.value));
      Ok(Decoded(Scout(v.value, c.value & 0x07, IdFromBytes(b.value)), b.rest))
    else
      Ok(Decoded(Scout(v.value, c.value & 0x07, EmptyId), c.rest))
  }

  /** Every scout comes back, with only the three `what` bits kept. */
  lemma ScoutRoundTrip(m: Scout, rest: Bytes)
    ensures ScoutDecode(ScoutEncode(m) + rest) == Ok(Decoded(m.(what := m.what & 0x07), rest))
  {
    var n := IdLen(m.zid);
    var s := ScoutEncode(m) + rest;
    var c := ScoutCByte(m);
    assert s[0] == m.version && s[1] == c && s[2..] == m.zid[..n] + rest;
    assert Uint8Decode(s) == Ok(Decoded(m.version, s[1..]));
    assert Uint8Decode(s[1..]) == Ok(Decoded(c, s[2..]));
    if IdCheck(m.zid) {
      ScoutIdField(m, rest);
    } else {
      assert m.zid == EmptyId && c & FLAG_SCOUT_I == 0 by { IdCheckNonZero(m.zid); }
      assert s[2..] == rest;
    }
  }

  /** The id field of a scout with a valid id. */
  lemma ScoutIdField(m: Scout, rest: Bytes)
    requires IdCheck(m.zid)
    ensures var c := ScoutCByte(m);
            c & FLAG_SCOUT_I != 0
            && ReadBytes(m.zid[..IdLen(m.zid)] + rest, AnnouncedIdLen(c)) == Ok(Decoded(m.zid[..IdLen(m.zid)], rest))
            && IdFromBytes(m.zid[..IdLen(m.zid)]) == m.zid
  {
    var n := IdLen(m.zid);
    assert AnnouncedIdLen(ScoutCByte(m)) == n;
    assert ReadBytes(m.zid[..n] + rest, n) == Ok(Decoded(m.zid[..n], rest));
    assert IdFromBytes(m.zid[..n]) == m.zid;
  }

  /*------------------ Hello ------------------*/

  datatype Hello = Hello(version: byte, whatami: byte, zid: Zid, locators: seq<Locator>)

  /** The control byte of `_z_hello_encode`: the `whatami` bits, and the id
      length minus one, taken modulo 16, in the high nibble. */
  function HelloCByte(m: Hello): (c: byte)
    ensures c & 0x03 == m.whatami & 0x03
    ensures (((c & 0xF0) >> 4) as nat) == (IdLen(m.zid) + 15) % 16
    ensures IdCheck(m.zid) ==> (((c & 0xF0) >> 4) as nat) + 1 == IdLen(m.zid)
  {
    var n := IdLenByte(m.zid);
    var k := (n - 1) & 0x0F;
    assert k as nat == (IdLen(m.zid) + 15) % 16;
    NibbleBits(m.whatami & 0x03, k);
    (m.whatami & 0x03) | (k << 4)
  }

  /** `_z_hello_encode`: version, control byte, the significant id bytes,
      then the locators when the header has the L flag. */
  function HelloEncode(header: byte, m: Hello): Bytes {
    [m.version, HelloCByte(m)] + m.zid[..IdLen(m.zid)]
    + (if header & FLAG_HELLO_L != 0 then LocatorsEncode(m.locators) else [])
  }

  /** `_z_hello_decode` / `_na`: version, control byte, the id length from
      the high nibble plus one, the id, then the locators when flagged. */
  function HelloDecode(s: Bytes, header: byte): (r: Result<Decoded<Hello>>)
    ensures r.Ok? ==> |s| >= 2 && r.value.value.version == s[0] && r.value.value.whatami == s[1] & 0x03
    ensures r.Ok? && header & FLAG_HELLO_L == 0 ==> r.value.value.locators == []
  {
    var v :- Uint8Decode(s);
    var c :- Uint8Decode(v.rest);
    var b :- ReadBytes(c.rest, AnnouncedIdLen(c.value));
    var zid := IdFromBytes(b.value);
    var ls :- if header & FLAG_HELLO_L != 0 then LocatorsDecode(b.rest) else Ok(Decoded([], b.rest));
    Ok(Decoded(Hello(v.value, c.value & 0x03, zid, ls.value), ls.rest))
  }

  /** The hellos whose trip is exact: a valid id (an empty one is announced as
      16 bytes), `whatami` in its two bits, locators only under the L flag and
      free of NUL bytes. */
  predicate HelloRoundTrips(header: byte, m: Hello) {
    IdCheck(m.zid) && m.whatami < 4
    && (header & FLAG_HELLO_L == 0 ==> m.locators == [])
    && forall i :: 0 <= i < |m.locators| ==> NulFree(m.locators[i])
  }

  /** Decoding a version, a control byte, as many id bytes as it announces,
      and what follows. */
  lemma HelloDecodeParts(v: byte, c: byte, idb: Bytes, tail: Bytes, header: byte)
    requires |idb| == AnnouncedIdLen(c)
    ensures HelloDecode([v, c] + idb + tail, header)
            == (var ls :- if header & FLAG_HELLO_L != 0 then LocatorsDecode(tail) else Ok(Decoded([], tail));
                Ok(Decoded(Hello(v, c & 0x03, IdFromBytes(idb), ls.value), ls.rest)))
  {
    var s := [v, c] + idb + tail;
    assert s == [v] + ([c] + (idb + tail));
    assert Uint8Decode(s) == Ok(Decoded(v, [c] + (idb + tail)));
    assert Uint8Decode([c] + (idb + tail)) == Ok(Decoded(c, idb + tail));
    assert ReadBytes(idb + tail, |idb|) == Ok(Decoded(idb, tail));
  }

  /** The locator field of a hello: written and read under the same flag. */
  lemma HelloLocatorsField(header: byte, m: Hello, rest: Bytes)
    requires HelloRoundTrips(header, m)
    ensures var locs := if header & FLAG_HELLO_L != 0 then LocatorsEncode(m.locators) else [];
            (if header & FLAG_HELLO_L != 0 then LocatorsDecode(locs + rest) else Ok(Decoded([], locs + rest)))
              == Ok(Decoded(m.locators, rest))
  {
    if header & FLAG_HELLO_L != 0 {
      LocatorsRoundTrip(m.locators, rest);
    } else {
      assert [] + rest == rest;
    }
  }

  lemma HelloLayout(header: byte, m: Hello, rest: Bytes)
    ensures var locs := if header & FLAG_HELLO_L != 0 then LocatorsEncode(m.locators) else [];
            HelloEncode(header, m) + rest == [m.version, HelloCByte(m)] + m.zid[..IdLen(m.zid)] + (locs + rest)
  {
    var locs := if header & FLAG_HELLO_L != 0 then LocatorsEncode(m.locators) else [];
    Assoc([m.version, HelloCByte(m)] + m.zid[..IdLen(m.zid)], locs, rest);
  }

  lemma HelloRoundTrip(header: byte, m: Hello, rest: Bytes)
    requires HelloRoundTrips(header, m)
    ensures HelloDecode(HelloEncode(header, m) + rest, header) == Ok(Decoded(m, rest))
  {
    var n := IdLen(m.zid);
    var locs := if header & FLAG_HELLO_L != 0 then LocatorsEncode(m.locators) else [];
    var c := HelloCByte(m);
    HelloLayout(header, m, rest);
    HelloLocatorsField(header, m, rest);
    IdFromSignificant(m.zid);
    assert m.whatami & 0x03 == m.whatami;
    HelloDecodeParts(m.version, c, m.zid[..n], locs + rest, header);
  }

  /** The hello encoder writes no id bytes for an empty id, but announces 16
      in the control byte. */
  lemma HelloEmptyIdAnnouncesSixteen(m: Hello)
    requires !IdCheck(m.zid)
    ensures var c := HelloCByte(m);
            ((c & 0xF0) >> 4) as nat + 1 == ID_SIZE && |HelloEncode(0, m)| == 2
  {
  }

  /*------------------ scouting message ------------------*/

  datatype ScoutingBody = ScoutBody(scout: Scout) | HelloBody(hello: Hello)

  /** `_z_scouting_message_t`: the header, and the body its id selects from
      the union. */
  datatype ScoutingMessage = ScoutingMessage(header: byte, body: ScoutingBody)

  /** The union member that the header's id names is the one filled in. */
  predicate BodyAgrees(m: ScoutingMessage) {
    (Mid(m.header) == MID_SCOUT ==> m.body.ScoutBody?)
    && (Mid(m.header) == MID_HELLO ==> m.body.HelloBody?)
  }

  /** `_z_scouting_message_encode`: the header, then the body; an unknown id
      is refused once the header has been written. */
  function ScoutingMessageEncode(m: ScoutingMessage): (r: Result<Bytes>)
    requires BodyAgrees(m)
    ensures r.Ok? <==> Mid(m.header) == MID_SCOUT || Mid(m.header) == MID_HELLO
    ensures r.Err? ==> r.error == TransportUnknown
    ensures r.Ok? ==> r.value == [m.header] + ScoutingBodyEncode(m.header, m.body)
  {
    if Mid(m.header) == MID_SCOUT || Mid(m.header) == MID_HELLO then Ok([m.header] + ScoutingBodyEncode(m.header, m.body))
    else Err(TransportUnknown)
  }

  /** The body, by the union member that is filled in. */
  function ScoutingBodyEncode(h: byte, b: ScoutingBody): Bytes {
    match b
    case ScoutBody(sc) => ScoutEncode(sc)
    case HelloBody(he) => HelloEncode(h, he)
  }

  /** The body a header names. */
  function ScoutingBodyDecode(s: Bytes, h: byte): (r: Result<Decoded<ScoutingBody>>)
    ensures Mid(h) != MID_SCOUT && Mid(h) != MID_HELLO ==> r == Err(TransportUnknown)
    ensures r.Ok? ==> (r.value.value.ScoutBody? <==> Mid(h) == MID_SCOUT)
  {
    if Mid(h) == MID_SCOUT then
      var sc :- ScoutDecode(s);
      Ok(Decoded(ScoutBody(sc.value), sc.rest))
    else if Mid(h) == MID_HELLO then
      var he :- HelloDecode(s, h);
      Ok(Decoded(HelloBody(he.value), he.rest))
    else Err(TransportUnknown)
  }

  /** `_z_scouting_message_decode` / `_na`: the header, the body it names,
      then, when the header has the Z flag, the extensions are skipped, which
      fails on a mandatory one. */
  function ScoutingMessageDecode(s: Bytes): (r: Result<Decoded<ScoutingMessage>>)
    ensures |s| == 0 ==> r == Err(DeserializationFailed)
    ensures |s| > 0 && Mid(s[0]) != MID_SCOUT && Mid(s[0]) != MID_HELLO ==> r == Err(TransportUnknown)
    ensures r.Ok? ==> r.value.value.header == s[0] && BodyAgrees(r.value.value)
  {
    var h :- Uint8Decode(s);
    var b :- ScoutingBodyDecode(h.rest, h.value);
    if h.value & FLAG_EXT_Z != 0 then
      var k :- SkipNonMandatories(b.rest);
      Ok(Decoded(ScoutingMessage(h.value, b.value), k.rest))
    else
      Ok(Decoded(ScoutingMessage(h.value, b.value), b.rest))
  }

  /** The header the decoder leaves in the message: 0xFF when none could be read. */
  function DecodedHeader(s: Bytes): byte {
    if |s| == 0 then 0xFF else s[0]
  }

  /** The messages whose trip is exact: a known id, no extensions, and a
      body that survives its own codec. */
  predicate ScoutingRoundTrips(m: ScoutingMessage) {
    BodyAgrees(m) && m.header & FLAG_EXT_Z == 0
    && (Mid(m.header) == MID_SCOUT || Mid(m.header) == MID_HELLO)
    && (m.body.ScoutBody? ==> m.body.scout.what < 8)
    && (m.body.HelloBody? ==> HelloRoundTrips(m.header, m.body.hello))
  }

  /** The body's trip, whatever the header's Z flag says. */
  lemma ScoutingBodyRoundTrip(m: ScoutingMessage, tail: Bytes)
    requires ScoutingRoundTrips(m.(header := m.header & 0x7F))
    ensures ScoutingBodyDecode(ScoutingBodyEncode(m.header, m.body) + tail, m.header) == Ok(Decoded(m.body, tail))
  {
    assert Mid(m.header) == Mid(m.header & 0x7F);
    if m.body.ScoutBody? {
      ScoutRoundTrip(m.body.scout, tail);
      assert m.body.scout.what & 0x07 == m.body.scout.what;
    } else {
      assert m.header & FLAG_HELLO_L == (m.header & 0x7F) & FLAG_HELLO_L;
      HelloRoundTrip(m.header, m.body.hello, tail);
    }
  }

  lemma ScoutingRoundTrip(m: ScoutingMessage, rest: Bytes)
    requires ScoutingRoundTrips(m)
    ensures ScoutingMessageDecode(ScoutingMessageEncode(m).value + rest) == Ok(Decoded(m, rest))
  {
    var body := ScoutingBodyEncode(m.header, m.body);
    assert m.header & 0x7F == m.header;
    ScoutingBodyRoundTrip(m, rest);
    Behead(m.header, body, rest);
  }

  /** A message whose header has the Z flag and which is followed by a chain
      of extensions decodes past the chain when no extension in it is
      mandatory, and fails otherwise. */
  lemma ScoutingSkipsExtensions(m: ScoutingMessage, exts: seq<MsgExt>, rest: Bytes)
    requires ScoutingRoundTrips(m.(header := m.header & 0x7F)) && m.header & FLAG_EXT_Z != 0
    requires Chained(exts)
    ensures var s := ScoutingMessageEncode(m).value + (ChainEncode(exts) + rest);
            ScoutingMessageDecode(s).Ok? <==> forall i :: 0 <= i < |exts| ==> !IsMandatory(exts[i].header)
    ensures var s := ScoutingMessageEncode(m).value + (ChainEncode(exts) + rest);
            ScoutingMessageDecode(s).Ok? ==> ScoutingMessageDecode(s) == Ok(Decoded(m, rest))
  {
    var chain := ChainEncode(exts) + rest;
    var body := ScoutingBodyEncode(m.header, m.body);
    assert Mid(m.header) == Mid(m.header & 0x7F);
    ScoutingBodyRoundTrip(m, chain);
    Behead(m.header, body, chain);
    SkipChain(exts, rest);
  }
}
