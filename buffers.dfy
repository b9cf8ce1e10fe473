/** The two I/O buffers the codec works on: `_z_wbuf_t`, a growable write
    buffer that encoders append to, and `_z_zbuf_t`, a read cursor over received
    bytes that decoders advance. Each method is specified by the pure codec in
    module Wire: an encoder appends exactly the function's bytes, a decoder
    returns the function's value and leaves the cursor on the function's rest. */
module Buffers {
  import opened Results
  import opened Wire

  /** `_z_wbuf_t`. Growth is unbounded here, so writing never fails. */
  class WBuf {
    var bytes: Bytes

    constructor ()
      ensures bytes == []
    {
      bytes := [];
    }

    /** `_z_wbuf_write` / `_z_uint8_encode` */
    method Write(b: byte)
      modifies this
      ensures bytes == old(bytes) + [b]
    {
      bytes := bytes + [b];
    }

    /** `_z_wbuf_write_bytes` / `_z_bytes_val_encode`: raw bytes, no length. */
    method WriteBytes(bs: Bytes)
      modifies this
      ensures bytes == old(bytes) + bs
    {
      bytes := bytes + bs;
    }

    /** `_z_zint_encode`: seven bits at a time, low group first. */
    method EncodeZint(n: nat)
      modifies this
      ensures bytes == old(bytes) + ZintEncode(n)
    {
      var v := n;
      while v >= 0x80
        invariant bytes + ZintEncode(v) == old(bytes) + ZintEncode(n)
        decreases v
      {
        ghost var before := bytes;
        Write(LowGroup(v));
        assert ZintEncode(v) == [LowGroup(v)] + ZintEncode(v / 0x80);
        Assoc(before, [LowGroup(v)], ZintEncode(v / 0x80));
        v := v / 0x80;
      }
      NatByte(v);
      Write(v as byte);
    }

    /** `_z_bytes_encode`: length as a zint, then the bytes. */
    method EncodeBytes(b: Bytes)
      modifies this
      ensures bytes == old(bytes) + BytesEncode(b)
    {
      EncodeZint(|b|);
      WriteBytes(b);
    }

    /** `_z_str_encode`: a C string without its terminator. */
    method EncodeStr(buf: Bytes)
      requires IsCStr(buf)
      modifies this
      ensures bytes == old(bytes) + StrEncode(buf)
    {
      var len := Strlen(buf);
      EncodeBytes(buf[..len]);
    }
  }

  /** Applies the weight of the groups already read to the value of the rest. */
  function Scale(acc: nat, mult: nat, r: Result<Decoded<nat>>): Result<Decoded<nat>> {
    match r
    case Ok(d) => Ok(Decoded(acc + mult * d.value, d.rest))
    case Err(e) => Err(e)
  }

  lemma ScaleStep(acc: nat, mult: nat, low: nat, r: Result<Decoded<nat>>)
    ensures Scale(acc, mult, Scale(low, 0x80, r)) == Scale(acc + mult * low, mult * 0x80, r)
  {
    if r.Ok? {
      var v := r.value.value;
      calc {
        acc + mult * (low + 0x80 * v);
        acc + mult * low + mult * (0x80 * v);
        { assert mult * (0x80 * v) == (mult * 0x80) * v; }
        acc + mult * low + (mult * 0x80) * v;
      }
    }
  }

  /** Zint decoding as the read loop performs it: `acc` holds the groups read
      so far and `mult` the weight of the next one. */
  function ZintDecodeFrom(s: Bytes, acc: nat, mult: nat): Result<Decoded<nat>>
    decreases |s|
  {
    if |s| == 0 then Err(DeserializationFailed)
    else if s[0] < 0x80 then Ok(Decoded(acc + mult * (s[0] as nat), s[1..]))
    else ZintDecodeFrom(s[1..], acc + mult * (s[0] as nat - 0x80), mult * 0x80)
  }

  /** The loop's accumulation agrees with the recursive decoder. */
  lemma {:induction false} ZintDecodeFromScale(s: Bytes, acc: nat, mult: nat)
    ensures ZintDecodeFrom(s, acc, mult) == Scale(acc, mult, ZintDecode(s))
    decreases |s|
  {
    if |s| > 0 && s[0] >= 0x80 {
      var low := s[0] as nat - 0x80;
      assert ZintDecode(s) == Scale(low, 0x80, ZintDecode(s[1..]));
      ZintDecodeFromScale(s[1..], acc + mult * low, mult * 0x80);
      ScaleStep(acc, mult, low, ZintDecode(s[1..]));
    }
  }

  /** A product of naturals is a natural. */
  lemma MulNat(a: nat, b: nat)
    ensures a * b >= 0
  {
  }

  /** `_z_zbuf_t`: the received bytes and the read position. */
  class ZBuf {
    const data: Bytes
    var pos: nat

    ghost predicate Valid()
      reads this
    {
      pos <= |data|
    }

    /** The bytes not read yet. */
    function Rest(): Bytes
      reads this
      requires Valid()
    {
      data[pos..]
    }

    /** `_z_zbuf_len`: how many bytes are left to read. */
    function Len(): (n: nat)
      reads this
      requires Valid()
      ensures n == |Rest()|
    {
      |data| - pos
    }

    constructor (d: Bytes)
      ensures Valid() && data == d && Rest() == d
    {
      data := d;
      pos := 0;
    }

    /** `_z_uint8_decode` */
    method DecodeUint8() returns (r: Result<byte>)
      requires Valid()
      modifies this
      ensures Valid() && Pair(r, Rest()) == Uint8Decode(old(Rest()))
    {
      if pos == |data| {
        return Err(DeserializationFailed);
      }
      r := Ok(data[pos]);
      pos := pos + 1;
    }

    /** `_z_zbuf_read_bytes`: `n` raw bytes. */
    method ReadBytes(n: nat) returns (r: Result<Bytes>)
      requires Valid()
      modifies this
      ensures Valid() && Pair(r, Rest()) == Wire.ReadBytes(old(Rest()), n)
    {
      if |data| - pos < n {
        return Err(DeserializationFailed);
      }
      assert data[pos..pos + n] == data[pos..][..n] && data[pos + n..] == data[pos..][n..];
      r := Ok(data[pos..pos + n]);
      pos := pos + n;
    }

    /** `_z_zint_decode`: accumulates seven bits per byte until a byte
        without the continuation bit. */
    method DecodeZint() returns (r: Result<nat>)
      requires Valid()
      modifies this
      ensures Valid() && Pair(r, Rest()) == ZintDecode(old(Rest()))
    {
      ghost var goal := ZintDecode(data[pos..]);
      ZintDecodeFromScale(data[pos..], 0, 1);
      var acc: nat := 0;
      var mult: nat := 1;
      while pos < |data| && data[pos] >= 0x80
        invariant Valid()
        invariant goal == ZintDecodeFrom(data[pos..], acc, mult)
        decreases |data| - pos
      {
        assert data[pos..][1..] == data[pos + 1..];
        var low: nat := data[pos] as nat - 0x80;
        MulNat(mult, low);
        acc, mult := acc + mult * low, mult * 0x80;
        pos := pos + 1;
      }
      if pos == |data| {
        return Err(DeserializationFailed);
      }
      assert data[pos..][1..] == data[pos + 1..];
      var last: nat := data[pos] as nat;
      MulNat(mult, last);
      r := Ok(acc + mult * last);
      pos := pos + 1;
    }

    /** `_z_bytes_decode` */
    method DecodeBytes() returns (r: Result<Bytes>)
      requires Valid()
      modifies this
      ensures Valid() && Pair(r, Rest()) == BytesDecode(old(Rest()))
    {
      var len := DecodeZint();
      if len.Err? {
        return Err(len.error);
      }
      r := ReadBytes(len.value);
    }

    /** `_z_str_decode`: the result is a fresh NUL-terminated buffer. */
    method DecodeStr() returns (r: Result<Bytes>)
      requires Valid()
      modifies this
      ensures Valid() && Pair(r, Rest()) == StrDecode(old(Rest()))
    {
      var b := DecodeBytes();
      if b.Err? {
        return Err(b.error);
      }
      r := Ok(b.value + [0]);
    }
  }
}
