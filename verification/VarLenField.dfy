/** The variable-length field of the CFDP headers (src/fsfw/cfdp/VarLenFields.cpp).

    The value is a union of integers of one, two, four and eight bytes; the model keeps its eight bytes,
    as a little-endian machine lays them out.  A width other than one, two and four is accepted, and
    the value then reads as zero. */
module VarLenFields {
  import opened Serialization

  datatype Field = Field(width: nat, union: seq<byte>)

  predicate Supported(width: nat) {
    width == 1 || width == 2 || width == 4
  }

  function Value(f: Field): nat
    requires |f.union| == 8
  {
    if Supported(f.width) then FromLittleEndian(f.union[..f.width]) else 0
  }

  function WithLow(union: seq<byte>, low: seq<byte>): (u: seq<byte>)
    requires |low| <= |union|
    ensures |u| == |union| && u[..|low|] == low
  {
    low + union[|low|..]
  }

  lemma {:induction false} ValueFitsWidth(s: seq<byte>)
    ensures FromLittleEndian(s) < Capacity(|s|)
  {
    if s != [] { ValueFitsWidth(s[1..]); }
  }

  /** Narrower fields come first; fields of the same width are ordered by value. */
  predicate Less(a: Field, b: Field)
    requires |a.union| == |b.union| == 8
  {
    if a.width < b.width then true else if a.width == b.width then Value(a) < Value(b) else false
  }

  predicate Equal(a: Field, b: Field)
    requires |a.union| == |b.union| == 8
  {
    a.width == b.width && Value(a) == Value(b)
  }

  /** The order is a strict total order on what the comparison for equality tells apart. */
  lemma OrderIsStrictAndTotal(a: Field, b: Field, c: Field)
    requires |a.union| == |b.union| == |c.union| == 8
    ensures (Less(a, b) || Equal(a, b) || Less(b, a)) && !(Less(a, b) && Less(b, a)) && !(Less(a, b) && Equal(a, b))
    ensures Less(a, b) && Less(b, c) ==> Less(a, c)
    ensures Less(a, b) && Equal(b, c) ==> Less(a, c)
  {
  }

  /** Fields order like their widths, and fields of the same width like the values they were set to. */
  lemma OrderIsThatOfValues(v: nat, v': nat, width: nat, width': nat, u: seq<byte>, u': seq<byte>)
    requires width in {1, 2, 4} && width' in {1, 2, 4} && |u| == |u'| == 8
    requires v < Capacity(width) && v' < Capacity(width')
    ensures var a := Field(width, WithLow(u, LittleEndian(v, width)));
            var b := Field(width', WithLow(u', LittleEndian(v', width')));
            && Value(a) == v && Value(b) == v'
            && (width < width' ==> Less(a, b) && !Less(b, a))
            && (width == width' ==> (Less(a, b) <==> v < v') && (Equal(a, b) <==> v == v'))
  {
    LittleEndianRoundTrip(v, width);
    LittleEndianRoundTrip(v', width');
  }

  /** What is serialized comes back: reading it with the same width gives an equal field, whatever was in
      the union that is read into. */
  lemma ValueSurvives(f: Field, target: seq<byte>, e: Endianness, rest: seq<byte>)
    requires f.width in {1, 2, 4} && |f.union| == |target| == 8
    ensures var stream := Encode(Value(f), f.width, e) + rest;
            Equal(Field(f.width, WithLow(target, InMemory(stream[..f.width], e))), f)
  {
    var bytes := Encode(Value(f), f.width, e);
    assert (bytes + rest)[..f.width] == bytes;
    ValueFitsWidth(f.union[..f.width]);
    DecodeEncode(Value(f), f.width, e);
  }

  /** Bytes of the stream in the machine's order. */
  function InMemory(bytes: seq<byte>, e: Endianness): (m: seq<byte>)
    ensures |m| == |bytes| && FromLittleEndian(m) == Decode(bytes, e)
  {
    if e == LITTLE then bytes else Reversed(bytes)
  }

  class VarLenField {
    var width: nat
    var union: seq<byte>

    ghost predicate Valid()
      reads this
    {
      |union| == 8
    }

    constructor ()
      ensures Valid() && width == 1 && Value(View()) == 0
    {
      width, union := 1, [0, 0, 0, 0, 0, 0, 0, 0];
    }

    ghost function View(): (f: Field)
      reads this
    {
      Field(width, union)
    }

    /** The value that was set is the value that is read if and only if the width is supported or the value
        is zero. */
    method SetValue(newWidth: nat, v: nat) returns (result: ReturnValue)
      requires Valid()
      modifies this
      ensures Valid()
      ensures result == if newWidth in {1, 2, 4} && v >= Capacity(newWidth) then FAILED else OK
      ensures result == FAILED ==> View() == old(View())
      ensures result == OK ==> width == newWidth && (Value(View()) == v <==> newWidth in {1, 2, 4} || v == 0)
    {
      if Supported(newWidth) {
        if v > Capacity(newWidth) - 1 {
          return FAILED;
        }
        LittleEndianRoundTrip(v, newWidth);
        union := WithLow(union, LittleEndian(v, newWidth));
      }
      width := newWidth;
      return OK;
    }

    method GetValue() returns (v: nat)
      requires Valid()
      ensures v == Value(View())
      ensures width in {1, 2, 4} ==> v < Capacity(width)
    {
      if Supported(width) {
        ValueFitsWidth(union[..width]);
        return FromLittleEndian(union[..width]);
      }
      return 0;
    }

    method Serialize(e: Endianness, stream: seq<byte>, maxSize: nat) returns (result: ReturnValue, out: seq<byte>)
      requires Valid()
      ensures width !in {1, 2, 4} ==> result == FAILED && out == stream
      ensures width in {1, 2, 4} ==> (result, out) == Put(stream, Encode(Value(View()), width, e), maxSize)
    {
      if width == 1 {
        if |stream| + 1 > maxSize {
          return BUFFER_TOO_SHORT, stream;
        }
        OneByte(union[0], e);
        assert union[..1] == [union[0]];
        assert FromLittleEndian([union[0]]) == union[0] + 256 * FromLittleEndian([union[0]][1..]);
        return OK, stream + [union[0]];
      }
      if width == 2 || width == 4 {
        var r := Put(stream, Encode(FromLittleEndian(union[..width]), width, e), maxSize);
        return r.0, r.1;
      }
      return FAILED, stream;
    }

    /** `buffer` is the memory behind the cursor and `size` the caller's count of the bytes left in it.  For a
        one-byte field the count is not looked at and the byte must be there; it is read and not consumed,
        and the count goes up instead of down. */
    method DeSerialize(newWidth: nat, e: Endianness, buffer: seq<byte>, size: nat)
      returns (result: ReturnValue, rest: seq<byte>, left: nat)
      requires Valid()
      requires size <= |buffer| && (newWidth == 1 ==> buffer != [])
      modifies this
      ensures Valid() && width == newWidth
      ensures newWidth !in {1, 2, 4} ==> result == FAILED
      ensures newWidth in {1, 2, 4} ==> (result == STREAM_TOO_SHORT <==> newWidth != 1 && size < newWidth)
      ensures result != OK ==> union == old(union) && rest == buffer && left == size
      ensures newWidth in {1, 2, 4} && result != STREAM_TOO_SHORT ==>
                && result == OK
                && union == WithLow(old(union), InMemory(buffer[..newWidth], e))
                && Value(View()) == Decode(buffer[..newWidth], e)
                && rest == if newWidth == 1 then buffer else buffer[newWidth..]
      ensures result == OK ==> left == if newWidth == 1 then size + 1 else size - newWidth
    {
      width := newWidth;
      if newWidth == 1 {
        assert InMemory(buffer[..1], e) == [buffer[0]];
        union := WithLow(union, [buffer[0]]);
        return OK, buffer, size + 1;
      }
      if !Supported(newWidth) {
        return FAILED, buffer, size;
      }
      if size < newWidth {
        return STREAM_TOO_SHORT, buffer, size;
      }
      union := WithLow(union, InMemory(buffer[..newWidth], e));
      return OK, buffer[newWidth..], size - newWidth;
    }
  }

  /** An input that fails: a value set with a width of eight bytes, which is accepted and reads as zero. */
  method EightBytesReadAsZero(v: nat) returns (result: ReturnValue, read: nat)
    ensures result == OK && read == 0
  {
    var field := new VarLenField();
    result := field.SetValue(8, v);
    read := field.GetValue();
  }

  lemma OneByte(v: nat, e: Endianness)
    requires v < 256
    ensures Encode(v, 1, e) == [v]
  {
    assert LittleEndian(v, 1) == [v % 256] + LittleEndian(v / 256, 0);
    assert Reversed([v % 256]) == [v % 256];
  }
}
