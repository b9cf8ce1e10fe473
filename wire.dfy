/** Primitive wire codecs that the message codec builds on: single bytes,
    raw byte runs, the variable-length unsigned integer (`zint`), length-prefixed
    byte slices and C strings. The C bodies of these (`_z_zint_encode`,
    `_z_bytes_encode`, `_z_str_encode`, `_z_uint64_encode`, ...) are not part of
    this model; they are given here the protocol's layout: a zint is LEB128
    (7 value bits per byte, low group first, high bit set on every byte but the
    last) and a slice is its length as a zint followed by the raw bytes.

    Every decoder takes the unread bytes and returns the value with the bytes
    that remain after it, or the error that stopped it. */
module Wire {
  import opened Results

  type byte = bv8
  type Bytes = seq<byte>

  const U16_MAX: nat := 0xFFFF
  const U32_MAX: nat := 0xFFFF_FFFF
  const U64_MAX: nat := 0xFFFF_FFFF_FFFF_FFFF

  /** `_Z_MID_MASK`: the low five bits of a header byte are the message id. */
  const MID_MASK: byte := 0x1F

  /** `_Z_MID` */
  function Mid(h: byte): byte {
    h & MID_MASK
  }

  /** The C fixed-width unsigned integers, as ranges of naturals. */
  type u16 = x: nat | x <= U16_MAX
  type u32 = x: nat | x <= U32_MAX
  type u64 = x: nat | x <= U64_MAX

  /** A decoded value and the input that follows it. */
  datatype Decoded<+T> = Decoded(value: T, rest: Bytes)

  /** A successful decode consumed a prefix of its input. */
  ghost predicate Consumes<T>(s: Bytes, r: Result<Decoded<T>>) {
    r.Ok? ==> |r.value.rest| <= |s|
  }

  /** Pairs the result of a decoding step with the bytes left behind. */
  function Pair<T>(r: Result<T>, rest: Bytes): Result<Decoded<T>> {
    match r
    case Ok(v) => Ok(Decoded(v, rest))
    case Err(e) => Err(e)
  }

  /** A run of `n` zero bytes. */
  function Zeros(n: nat): (z: Bytes)
    ensures |z| == n && forall i :: 0 <= i < n ==> z[i] == 0
  {
    seq(n, _ => 0)
  }

  /*------------------ single byte (_z_uint8_encode / _z_uint8_decode) ------------------*/

  function Uint8Decode(s: Bytes): (r: Result<Decoded<byte>>)
    ensures r.Ok? <==> |s| > 0
    ensures r.Ok? ==> s == [r.value.value] + r.value.rest
    ensures r.Err? ==> r.error == DeserializationFailed
  {
    if |s| == 0 then Err(DeserializationFailed) else Ok(Decoded(s[0], s[1..]))
  }

  /** Dropping the header byte of a message gives back what followed it. */
  lemma Behead(b: byte, x: Bytes, rest: Bytes)
    ensures ([b] + x + rest)[0] == b && ([b] + x + rest)[1..] == x + rest
  {
  }

  lemma Behead2(b: byte, x: Bytes, y: Bytes, rest: Bytes)
    ensures ([b] + (x + y) + rest)[0] == b && ([b] + (x + y) + rest)[1..] == x + (y + rest)
  {
  }

  /*------------------ raw bytes (_z_zbuf_read_bytes) ------------------*/

  /** Reads `n` raw bytes; fails when fewer remain. */
  function ReadBytes(s: Bytes, n: nat): (r: Result<Decoded<Bytes>>)
    ensures r.Ok? <==> n <= |s|
    ensures r.Ok? ==> |r.value.value| == n
  {
    if n <= |s| then Ok(Decoded(s[..n], s[n..])) else Err(DeserializationFailed)
  }

  /*------------------ zint (_z_zint_encode / _z_zint_decode) ------------------*/

  /** The first byte of a zint that does not fit in one byte: its low seven
      bits with the continuation bit set. */
  function LowGroup(n: nat): (b: byte)
    ensures b as nat == n % 0x80 + 0x80
    ensures b >= 0x80
  {
    var x := n % 0x80 + 0x80;
    NatByte(x);
    x as byte
  }

  /** Converting a small number to a byte and back gives the number. */
  lemma NatByte(x: int)
    requires 0 <= x < 0x100
    ensures (x as byte) as int == x
    ensures x < 0x80 ==> x as byte < 0x80
  {
  }

  /** Concatenation regrouped. */
  lemma Assoc(a: Bytes, b: Bytes, c: Bytes)
    ensures a + b + c == a + (b + c)
  {
  }

  function ZintEncode(n: nat): (r: Bytes)
    decreases n
  {
    if n < 0x80 then NatByte(n); [n as byte]
    else [LowGroup(n)] + ZintEncode(n / 0x80)
  }

  function ZintDecode(s: Bytes): (r: Result<Decoded<nat>>)
    ensures Consumes(s, r)
    ensures r.Ok? ==> |r.value.rest| < |s|
    decreases |s|
  {
    if |s| == 0 then Err(DeserializationFailed)
    else if s[0] < 0x80 then Ok(Decoded(s[0] as nat, s[1..]))
    else
      match ZintDecode(s[1..])
      case Err(e) => Err(e)
      case Ok(d) => Ok(Decoded(s[0] as nat - 0x80 + 0x80 * d.value, d.rest))
  }

  /** Every byte of an encoded zint but the last carries the continuation bit,
      and the last one does not. */
  lemma {:induction false} ZintEncodeShape(n: nat)
    ensures |ZintEncode(n)| >= 1
    ensures forall i :: 0 <= i < |ZintEncode(n)| - 1 ==> ZintEncode(n)[i] >= 0x80
    ensures ZintEncode(n)[|ZintEncode(n)| - 1] < 0x80
    decreases n
  {
    var e := ZintEncode(n);
    if n >= 0x80 {
      var tail := ZintEncode(n / 0x80);
      ZintEncodeShape(n / 0x80);
      assert e == [LowGroup(n)] + tail;
      forall i | 0 <= i < |e| - 1
        ensures e[i] >= 0x80
      {
        if i > 0 {
          assert e[i] == tail[i - 1];
        }
      }
      assert e[|e| - 1] == tail[|tail| - 1];
    } else {
      NatByte(n);
    }
  }

  /** Round trip: a zint decodes to the value it encodes, whatever follows it. */
  lemma {:induction false} ZintRoundTrip(n: nat, rest: Bytes)
    ensures ZintDecode(ZintEncode(n) + rest) == Ok(Decoded(n, rest))
    decreases n
  {
    var s := ZintEncode(n) + rest;
    if n < 0x80 {
      NatByte(n);
      assert s[0] as nat == n && s[1..] == rest;
    } else {
      ZintRoundTrip(n / 0x80, rest);
      assert s[0] == LowGroup(n) && s[1..] == ZintEncode(n / 0x80) + rest;
      LowGroupRecombines(n);
    }
  }

  /** The first byte and the value of the remaining bytes give back `n`. */
  lemma LowGroupRecombines(n: nat)
    ensures LowGroup(n) as nat - 0x80 + 0x80 * (n / 0x80) == n
  {
    assert n % 0x80 + 0x80 * (n / 0x80) == n;
  }

  /** 128 to the power k. */
  function Pow128(k: nat): (p: nat)
    ensures p >= 1
  {
    if k == 0 then 1 else 0x80 * Pow128(k - 1)
  }

  /** A value below 128^k needs at most k bytes; in particular a 64-bit value
      needs at most 10. */
  lemma {:induction false} ZintEncodeLength(n: nat, k: nat)
    requires 1 <= k && n < Pow128(k)
    ensures |ZintEncode(n)| <= k
    decreases k
  {
    if n >= 0x80 {
      assert k >= 2;
      ZintEncodeLength(n / 0x80, k - 1);
    }
  }

  lemma ZintU64FitsTenBytes(n: nat)
    requires n <= U64_MAX
    ensures |ZintEncode(n)| <= 10
  {
    assert Pow128(10) == 1180591620717411303424 by {
      assert Pow128(2) == 0x4000;
      assert Pow128(4) == 0x1000_0000;
      assert Pow128(8) == 0x100_0000_0000_0000;
    }
    ZintEncodeLength(n, 10);
  }

  /*------------------ byte slices (_z_bytes_encode / _z_bytes_decode) ------------------*/

  function BytesEncode(b: Bytes): Bytes {
    ZintEncode(|b|) + b
  }

  function BytesDecode(s: Bytes): (r: Result<Decoded<Bytes>>)
    ensures Consumes(s, r)
  {
    var len :- ZintDecode(s);
    ReadBytes(len.rest, len.value)
  }

  lemma BytesRoundTrip(b: Bytes, rest: Bytes)
    ensures BytesDecode(BytesEncode(b) + rest) == Ok(Decoded(b, rest))
  {
    ZintRoundTrip(|b|, b + rest);
    assert BytesEncode(b) + rest == ZintEncode(|b|) + (b + rest);
    assert (b + rest)[..|b|] == b && (b + rest)[|b|..] == rest;
  }

  /*------------------ C strings (_z_str_encode / _z_str_decode) ------------------*/

  /** Bytes without a NUL, such as the characters of a C string. */
  predicate NulFree(v: Bytes) {
    forall i :: 0 <= i < |v| ==> v[i] != 0
  }

  /** A C string buffer: bytes that contain a NUL terminator. */
  predicate IsCStr(buf: Bytes) {
    exists i :: 0 <= i < |buf| && buf[i] == 0
  }

  /** `strlen`: the position of the first NUL byte. */
  function Strlen(buf: Bytes): (n: nat)
    requires IsCStr(buf)
    ensures n < |buf| && buf[n] == 0
    ensures forall i :: 0 <= i < n ==> buf[i] != 0
  {
    if buf[0] == 0 then 0
    else
      assert IsCStr(buf[1..]) by {
        var i :| 0 <= i < |buf| && buf[i] == 0;
        assert buf[1..][i - 1] == 0;
      }
      1 + Strlen(buf[1..])
  }

  /** The characters of a C string, without its terminator. */
  function StrValue(buf: Bytes): Bytes
    requires IsCStr(buf)
  {
    buf[..Strlen(buf)]
  }

  function StrEncode(buf: Bytes): Bytes
    requires IsCStr(buf)
  {
    BytesEncode(StrValue(buf))
  }

  /** Decodes a string into a freshly terminated C string buffer. */
  function StrDecode(s: Bytes): (r: Result<Decoded<Bytes>>)
    ensures Consumes(s, r)
    ensures r.Ok? ==> IsCStr(r.value.value)
  {
    var b :- BytesDecode(s);
    assert (b.value + [0])[|b.value|] == 0;
    Ok(Decoded(b.value + [0], b.rest))
  }

  /** A NUL-free value is its own C string once terminated. */
  lemma StrValueOfTerminated(v: Bytes)
    requires NulFree(v)
    ensures IsCStr(v + [0]) && StrValue(v + [0]) == v
  {
    assert (v + [0])[|v|] == 0;
    assert forall i :: 0 <= i < |v| ==> (v + [0])[i] != 0;
  }

  /** The characters of a byte run before its first NUL, or all of them when
      it has none: what a C string reader sees of a buffer. */
  function UpToNul(v: Bytes): (r: Bytes)
    ensures NulFree(r) && |r| <= |v| && r == v[..|r|]
  {
    if |v| == 0 || v[0] == 0 then [] else [v[0]] + UpToNul(v[1..])
  }

  /** A decoded string, terminated afresh, reads as the bytes before the first NUL. */
  lemma {:induction false} StrValueUpToNul(v: Bytes)
    ensures IsCStr(v + [0]) && StrValue(v + [0]) == UpToNul(v)
    decreases |v|
  {
    var t := v + [0];
    assert t[|v|] == 0;
    if |v| > 0 && v[0] != 0 {
      StrValueUpToNul(v[1..]);
      assert t[1..] == v[1..] + [0];
    }
  }

  /** A NUL-free run reads back whole. */
  lemma {:induction false} UpToNulOfNulFree(v: Bytes)
    requires NulFree(v)
    ensures UpToNul(v) == v
    decreases |v|
  {
    if |v| > 0 {
      UpToNulOfNulFree(v[1..]);
    }
  }

  /** Round trip: decoding an encoded C string gives a C string with the same characters. */
  lemma StrRoundTrip(buf: Bytes, rest: Bytes)
    requires IsCStr(buf)
    ensures StrDecode(StrEncode(buf) + rest).Ok?
    ensures var d := StrDecode(StrEncode(buf) + rest).value;
            d.rest == rest && IsCStr(d.value) && StrValue(d.value) == StrValue(buf)
  {
    BytesRoundTrip(StrValue(buf), rest);
    StrValueOfTerminated(StrValue(buf));
  }
}
