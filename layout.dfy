/**
 * The on-disk form of an indirect block: its table of sector numbers stored
 * as consecutive 4-byte integers.  The conversions `FileSystem.intToBytes`
 * and `FileSystem.bytesToInt` are not part of this model; they are given here
 * as big-endian two's complement, and all the block code needs of them is
 * that decoding inverts encoding (`BytesToIntToBytes`).
 */
module Layout {
  import opened JavaTypes

  /** Bytes per stored sector number. */
  const IntBytes: nat := 4

  /** An unsigned digit 0..255 as the signed Java byte with the same bits. */
  function SignedByte(d: int): (b: byte)
    requires 0 <= d < 256
    ensures b as int % 256 == d
  {
    if d < 128 then d else d - 256
  }

  /** `intToBytes`: the four bytes of `x`, most significant first. */
  function IntToBytes(x: int32): (b: seq<byte>)
    ensures |b| == IntBytes
  {
    var u := x % 0x1_0000_0000;
    var q1 := u / 256;
    var q2 := q1 / 256;
    [SignedByte(q2 / 256), SignedByte(q2 % 256), SignedByte(q1 % 256), SignedByte(u % 256)]
  }

  /** `bytesToInt`: the int whose four bytes, most significant first, are `b`. */
  function BytesToInt(b: seq<byte>): int32
    requires |b| == IntBytes
  {
    var u := ((b[0] as int % 256 * 256 + b[1] as int % 256) * 256 + b[2] as int % 256) * 256
             + b[3] as int % 256;
    if u < 0x8000_0000 then u else u - 0x1_0000_0000
  }

  /** Decoding the bytes of an int gives the int back. */
  lemma BytesToIntToBytes(x: int32)
    ensures BytesToInt(IntToBytes(x)) == x
  {
    var u := x % 0x1_0000_0000;
    var q1 := u / 256;
    var q2 := q1 / 256;
    assert u == q1 * 256 + u % 256;
    assert q1 == q2 * 256 + q1 % 256;
    assert q2 == q2 / 256 * 256 + q2 % 256;
    assert x < 0 ==> u == x + 0x1_0000_0000;
  }

  /** A table laid out as consecutive 4-byte integers. */
  function Encode(t: seq<int32>): (b: seq<byte>)
    ensures |b| == IntBytes * |t|
  {
    if t == [] then [] else IntToBytes(t[0]) + Encode(t[1..])
  }

  /** The table stored in consecutive 4-byte integers; trailing bytes short of a whole integer are ignored. */
  function Decode(b: seq<byte>): (t: seq<int32>)
    ensures |t| == |b| / IntBytes
  {
    if |b| < IntBytes then [] else [BytesToInt(b[..IntBytes])] + Decode(b[IntBytes..])
  }

  /** Entry `i` of a table is stored at bytes `4i .. 4i + 4` of its encoding. */
  lemma {:induction false} EncodeAt(t: seq<int32>, i: nat)
    requires i < |t|
    ensures Encode(t)[IntBytes * i..IntBytes * i + IntBytes] == IntToBytes(t[i])
  {
    if i > 0 {
      EncodeAt(t[1..], i - 1);
      assert Encode(t)[IntBytes..] == Encode(t[1..]);
      assert Encode(t)[IntBytes * i..IntBytes * i + IntBytes]
          == Encode(t)[IntBytes..][IntBytes * (i - 1)..IntBytes * (i - 1) + IntBytes];
    }
  }

  /** Entry `i` of a decoded table is read from bytes `4i .. 4i + 4`. */
  lemma {:induction false} DecodeAt(b: seq<byte>, i: nat)
    requires i < |b| / IntBytes
    ensures Decode(b)[i] == BytesToInt(b[IntBytes * i..IntBytes * i + IntBytes])
  {
    if i > 0 {
      DecodeAt(b[IntBytes..], i - 1);
      assert b[IntBytes * i..IntBytes * i + IntBytes]
          == b[IntBytes..][IntBytes * (i - 1)..IntBytes * (i - 1) + IntBytes];
    }
  }

  /** A byte string holding `t[i]` at offset `4i` for every `i` is the encoding of `t`. */
  lemma {:induction false} EncodeUnique(b: seq<byte>, t: seq<int32>)
    requires |b| == IntBytes * |t|
    requires forall i :: 0 <= i < |t| ==> b[IntBytes * i..IntBytes * i + IntBytes] == IntToBytes(t[i])
    ensures b == Encode(t)
  {
    if t != [] {
      var rest := b[IntBytes..];
      forall i | 0 <= i < |t| - 1
        ensures rest[IntBytes * i..IntBytes * i + IntBytes] == IntToBytes(t[1..][i])
      {
        assert rest[IntBytes * i..IntBytes * i + IntBytes] == b[IntBytes * (i + 1)..IntBytes * (i + 1) + IntBytes];
      }
      EncodeUnique(rest, t[1..]);
      assert b[..IntBytes] == IntToBytes(t[0]);
      assert b == b[..IntBytes] + rest;
    }
  }

  /** Round trip of the on-disk form: decoding an encoded table gives the table back. */
  lemma {:induction false} DecodeEncode(t: seq<int32>)
    ensures Decode(Encode(t)) == t
  {
    if t != [] {
      var b := Encode(t);
      assert b[..IntBytes] == IntToBytes(t[0]);
      assert b[IntBytes..] == Encode(t[1..]);
      BytesToIntToBytes(t[0]);
      DecodeEncode(t[1..]);
    }
  }
}
