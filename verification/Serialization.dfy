/** Fixed-width encodings, as the serialize adapter produces them for trivially copyable types.

    A stream is the sequence of bytes written so far.  `Put` is the room check every serialize call
    makes before it writes; `Take` is the length check every deSerialize call makes before it reads. */
module Serialization {
  type byte = x: int | 0 <= x < 256

  const TWO_TO_THE_32: nat := 0x1_0000_0000
  type uint32 = x: int | 0 <= x < 0x1_0000_0000

  datatype Option<+T> = None | Some(value: T)

  /** The codes the containers and codecs return (src/fsfw/returnvalues/returnvalue.h and
      src/fsfw/serialize/SerializeIF.h). */
  datatype ReturnValue =
    | OK
    | FAILED
    | BUFFER_TOO_SHORT
    | STREAM_TOO_SHORT
    | TOO_MANY_ELEMENTS
    | KEY_ALREADY_EXISTS
    | KEY_DOES_NOT_EXIST
    | MAP_FULL

  datatype Endianness = BIG | LITTLE

  // ---------- unsigned integers as bytes ----------

  /** How many values fit in `width` bytes. */
  function Capacity(width: nat): (c: nat)
    ensures c > 0
  {
    if width == 0 then 1 else 256 * Capacity(width - 1)
  }

  function LittleEndian(n: nat, width: nat): (s: seq<byte>)
    ensures |s| == width
  {
    if width == 0 then [] else [n % 256] + LittleEndian(n / 256, width - 1)
  }

  function FromLittleEndian(s: seq<byte>): nat {
    if s == [] then 0 else s[0] + 256 * FromLittleEndian(s[1..])
  }

  function Reversed(s: seq<byte>): (r: seq<byte>)
    ensures |r| == |s|
    ensures forall i :: 0 <= i < |s| ==> r[i] == s[|s| - 1 - i]
  {
    seq(|s|, i requires 0 <= i < |s| => s[|s| - 1 - i])
  }

  function Encode(n: nat, width: nat, e: Endianness): (s: seq<byte>)
    ensures |s| == width
  {
    if e == LITTLE then LittleEndian(n, width) else Reversed(LittleEndian(n, width))
  }

  function Decode(s: seq<byte>, e: Endianness): nat {
    FromLittleEndian(if e == LITTLE then s else Reversed(s))
  }

  lemma {:induction false} LittleEndianRoundTrip(n: nat, width: nat)
    requires n < Capacity(width)
    ensures FromLittleEndian(LittleEndian(n, width)) == n
  {
    if width > 0 {
      LittleEndianRoundTrip(n / 256, width - 1);
      assert LittleEndian(n, width)[1..] == LittleEndian(n / 256, width - 1);
    }
  }

  /** Either byte order recovers every value that fits in the width. */
  lemma DecodeEncode(n: nat, width: nat, e: Endianness)
    requires n < Capacity(width)
    ensures Decode(Encode(n, width, e), e) == n
  {
    LittleEndianRoundTrip(n, width);
    assert Reversed(Reversed(LittleEndian(n, width))) == LittleEndian(n, width);
  }

  /** The byte order: little-endian has the least significant byte first, big-endian the most significant. */
  lemma ByteOrder(n: nat)
    ensures Encode(n, 1, LITTLE) == Encode(n, 1, BIG) == [n % 256]
    ensures Encode(n, 2, LITTLE) == [n % 256, n / 256 % 256]
    ensures Encode(n, 2, BIG) == [n / 256 % 256, n % 256]
    ensures Encode(n, 4, LITTLE) == [n % 256, n / 256 % 256, n / 0x1_0000 % 256, n / 0x100_0000 % 256]
    ensures Encode(n, 4, BIG) == [n / 0x100_0000 % 256, n / 0x1_0000 % 256, n / 256 % 256, n % 256]
  {
    LittleEndianTwo(n);
    LittleEndianTwo(n / 0x1_0000);
    assert LittleEndian(n, 1) == [n % 256] + LittleEndian(n / 256, 0);
    assert LittleEndian(n, 4) == [n % 256] + ([n / 256 % 256] + LittleEndian(n / 256 / 256, 2)) by {
      assert LittleEndian(n / 256, 3) == [n / 256 % 256] + LittleEndian(n / 256 / 256, 2);
    }
  }

  lemma LittleEndianTwo(n: nat)
    ensures LittleEndian(n, 2) == [n % 256, n / 256 % 256]
  {
    assert LittleEndian(n / 256, 1) == [n / 256 % 256] + LittleEndian(n / 256 / 256, 0);
  }

  /** How many values fit in the widths in use. */
  lemma Capacities()
    ensures Capacity(1) == 256 && Capacity(2) == 0x1_0000 && Capacity(4) == TWO_TO_THE_32
  {
    assert Capacity(1) == 256 * Capacity(0);
    assert Capacity(2) == 256 * Capacity(1);
    assert Capacity(3) == 256 * Capacity(2);
  }

  // ---------- codecs ----------

  /** A type with a fixed serialized size, at one byte order. */
  datatype FieldCodec<!T> = FieldCodec(width: nat, encode: T -> seq<byte>, decode: seq<byte> -> T)

  ghost predicate Lawful<T(!new)>(c: FieldCodec<T>) {
    forall t: T :: |c.encode(t)| == c.width && c.decode(c.encode(t)) == t
  }

  function Uint32Codec(e: Endianness): FieldCodec<uint32> {
    FieldCodec<uint32>.FieldCodec(4, (n: uint32) => Encode(n, 4, e), (s: seq<byte>) => Decode(s, e) % TWO_TO_THE_32)
  }

  lemma Uint32CodecIsLawful(e: Endianness)
    ensures Lawful(Uint32Codec(e))
  {
    forall n: uint32
      ensures |Uint32Codec(e).encode(n)| == 4 && Uint32Codec(e).decode(Uint32Codec(e).encode(n)) == n
    {
      Capacities();
      DecodeEncode(n, 4, e);
    }
  }

  // ---------- streams ----------

  /** Append `bytes` to the stream if that keeps it within `maxSize`. */
  function Put(out: seq<byte>, bytes: seq<byte>, maxSize: nat): (ReturnValue, seq<byte>) {
    if |out| + |bytes| <= maxSize then (OK, out + bytes) else (BUFFER_TOO_SHORT, out)
  }

  /** Split `width` bytes off the stream if it has that many. */
  function Take(stream: seq<byte>, width: nat): Option<(seq<byte>, seq<byte>)> {
    if |stream| >= width then Some((stream[..width], stream[width..])) else None
  }

  lemma TakeEncoded<T(!new)>(c: FieldCodec<T>, t: T, rest: seq<byte>)
    requires Lawful(c)
    ensures Take(c.encode(t) + rest, c.width) == Some((c.encode(t), rest))
  {
  }
}
