/** FormsAuthenticationTicketSerializer: a reader that walks a byte buffer with a cursor, a
    writer that appends to a growing stream, and Deserialize and Serialize written against
    them step by step. Each method is proved to compute the matching function of WireFormat
    or TicketFormat. */
module TicketSerializer {

  import opened Wrappers
  import opened NetTypes
  import opened Tickets
  import opened WireFormat
  import opened TicketFormat
  import opened TicketLaws

  /** The outcome of a read as a read function states it: the value and the cursor after it,
      or None where the reader throws (the cursor is then of no interest, since Deserialize
      gives up). The ensures only spell out the body, as an aid to the method proofs. */
  function AsRead<T>(r: Option<T>, position: nat): (o: Option<Read<T>>)
    ensures o.Some? <==> r.Some?
    ensures o.Some? ==> o.value.value == r.value && o.value.next == position
  {
    if r.Some? then Some(Read(r.value, position)) else None
  }

  /** A BinaryReader over a MemoryStream: fixed bytes and a cursor. */
  class SerializingBinaryReader {
    const buffer: seq<byte>
    var position: nat

    /** The cursor never passes the end of the buffer. */
    predicate Valid()
      reads this
    {
      position <= |buffer|
    }

    constructor(input: seq<byte>)
      ensures Valid() && buffer == input && position == 0
    {
      buffer := input;
      position := 0;
    }

    /** BinaryReader.ReadByte; EndOfStreamException at the end of the buffer. */
    method ReadByte() returns (r: Option<byte>)
      requires Valid()
      modifies this
      ensures Valid()
      ensures ByteAt(buffer, old(position)) == AsRead(r, position)
    {
      if position < |buffer| {
        r := Some(buffer[position]);
        position := position + 1;
      } else {
        r := None;
      }
    }

    /** BinaryReader.ReadInt64: eight bytes, little-endian, two's complement. */
    method ReadInt64() returns (r: Option<Int64>)
      requires Valid()
      modifies this
      ensures Valid()
      ensures Int64At(buffer, old(position)) == AsRead(r, position)
    {
      if position + 8 <= |buffer| {
        r := Some(Int64Value(buffer, position));
        position := position + 8;
      } else {
        r := None;
      }
    }

    /** BinaryReader.ReadBytes(count): ArgumentOutOfRangeException for a negative count, and
        fewer bytes than asked when the stream ends first. */
    method ReadBytes(count: Int32) returns (r: Option<seq<byte>>)
      requires Valid()
      modifies this
      ensures Valid()
      ensures r.Some? <==> 0 <= count
      ensures r.Some? ==>
        var end := if old(position) + count <= |buffer| then old(position) + count else |buffer|;
        old(position) <= end && |r.value| == end - old(position) &&
        Contains(buffer, old(position), r.value) && position == end
      ensures r.None? ==> position == old(position)
    {
      if count < 0 {
        return None;
      }
      var end := if position + count <= |buffer| then position + count else |buffer|;
      var bytes := new byte[end - position];
      for i := 0 to end - position
        invariant forall k :: 0 <= k < i ==> bytes[k] == buffer[position + k]
        modifies bytes
      {
        bytes[i] := buffer[position + i];
      }
      r := Some(bytes[..]);
      position := end;
    }

    /** Read7BitEncodedInt: seven bits per byte until a byte below 0x80, FormatException once
        five bytes have been read without one. */
    method Read7BitEncodedInt() returns (r: Option<Int32>)
      requires Valid()
      modifies this
      ensures Valid()
      ensures Read7BitAt(buffer, old(position)) == AsRead(r, position)
    {
      var count: nat := 0;
      var groups: nat := 0;
      while true
        invariant Valid() && groups <= 5
        invariant Read7BitFrom(buffer, old(position), 0, 0) == Read7BitFrom(buffer, position, groups, count)
        decreases 5 - groups
      {
        if groups == 5 {
          return None;
        }
        var start := position;
        var b := ReadByte();
        if b.None? {
          return None;
        }
        Read7BitStep(buffer, start, groups, count);
        count := count + Shift7(b.value % 128, groups);
        groups := groups + 1;
        if b.value < 128 {
          return Some(Wrap32(count));
        }
      }
    }

    /** ReadBinaryString: the 7-bit encoded unit count num, then ReadBytes(num * 2) with an
        unchecked product, then the units assembled from byte pairs. */
    method ReadBinaryString() returns (r: Option<NetString>)
      requires Valid()
      modifies this
      ensures Valid()
      ensures BinaryStringAt(buffer, old(position)) == AsRead(r, position)
    {
      var num := Read7BitEncodedInt();
      if num.None? {
        return None;
      }
      var start := position;
      var n := num.value;
      var read := ReadBytes(Wrap32(n as int * 2));
      if read.None? {
        return None;
      }
      if n < 0 {
        return None;  // new char[num]: OverflowException
      }
      var bytes := read.value;
      var units := new UInt16[n];
      for i := 0 to n
        invariant 2 * i <= |bytes|
        modifies units
        invariant forall k :: 0 <= k < i ==> units[k] == bytes[2 * k] as int + 256 * bytes[2 * k + 1] as int
      {
        if 2 * i + 1 >= |bytes| {
          return None;  // array[2 * i + 1]: IndexOutOfRangeException
        }
        units[i] := bytes[2 * i] as int + 256 * bytes[2 * i + 1] as int;
      }
      assert units[..] == DecodeUnitsAt(buffer, start, n) by {
        forall k | 0 <= k < n ensures units[k] == buffer[start + 2 * k] as int + 256 * buffer[start + 2 * k + 1] as int {
          assert bytes[2 * k] == buffer[start + 2 * k];
          assert bytes[2 * k + 1] == buffer[start + (2 * k + 1)];
        }
      }
      r := Some(units[..]);
    }
  }

  /** A BinaryWriter over a MemoryStream: the bytes written so far. */
  class SerializingBinaryWriter {
    var stream: seq<byte>

    constructor()
      ensures stream == []
    {
      stream := [];
    }

    /** BinaryWriter.Write(byte). */
    method WriteByte(b: byte)
      modifies this
      ensures stream == old(stream) + [b]
    {
      stream := stream + [b];
    }

    /** BinaryWriter.Write(bool): one byte, 1 for true. */
    method WriteBool(v: bool)
      modifies this
      ensures stream == old(stream) + [if v then 1 else 0]
    {
      stream := stream + [if v then 1 else 0];
    }

    /** BinaryWriter.Write(long). */
    method WriteInt64(x: Int64)
      modifies this
      ensures stream == old(stream) + Int64Bytes(x)
    {
      stream := stream + Int64Bytes(x);
    }

    /** BinaryWriter.Write(byte[]). */
    method WriteBytes(bytes: seq<byte>)
      modifies this
      ensures stream == old(stream) + bytes
    {
      stream := stream + bytes;
    }

    /** Write7BitEncodedInt: the value as a uint, seven bits at a time, the high bit set on
        every byte but the last. */
    method Write7BitEncodedInt(value: Int32)
      modifies this
      ensures stream == old(stream) + Write7Bit(value)
    {
      var v: nat := if value < 0 then value + 0x1_0000_0000 else value;
      while v >= 128
        invariant stream + Encode7Bit(v) == old(stream) + Write7Bit(value)
        decreases v
      {
        WriteByte(v % 128 + 128);
        v := v / 128;
      }
      WriteByte(v);
    }

    /** WriteBinaryString: the code units into a new byte[value.Length * 2], then the length
        prefix and the bytes. The product is unchecked: from 2^30 units on it is negative and
        the array allocation throws OverflowException before anything is written. */
    method WriteBinaryString(value: NetString) returns (ok: bool)
      modifies this
      ensures ok <==> |value| < 0x4000_0000
      ensures stream == if ok then old(stream) + BinaryStringBytes(value) else old(stream)
    {
      var size := Wrap32(|value| * 2);
      if size < 0 {
        return false;
      }
      var bytes := new byte[size];
      for i := 0 to |value|
        invariant forall j :: 0 <= j < 2 * i ==> bytes[j] == EncodeUnits(value)[j]
        modifies bytes
      {
        var c := value[i];
        bytes[2 * i] := c % 256;
        bytes[2 * i + 1] := c / 256;
        assert (2 * i) / 2 == i && (2 * i + 1) / 2 == i && (2 * i + 1) % 2 == 1;
      }
      assert bytes[..] == EncodeUnits(value);
      Write7BitEncodedInt(|value|);
      WriteBytes(bytes[..]);
      ok := true;
    }
  }

  /** Deserialize's reads before the three strings, with their checks. */
  method DeserializeHeader(reader: SerializingBinaryReader) returns (h: Option<HeaderFields>)
    requires reader.Valid() && reader.position == 0
    modifies reader
    ensures reader.Valid()
    ensures h == ParseHeader(reader.buffer)
    ensures h.Some? ==> reader.position == 20
  {
    var b := reader.ReadByte();
    if b.None? || b.value != FormatVersion {
      return None;
    }
    var version := reader.ReadByte();
    if version.None? {
      return None;
    }
    var ticks := reader.ReadInt64();
    if ticks.None? || !IsDateTime(ticks.value) {
      return None;  // new DateTime(ticks) throws ArgumentOutOfRangeException
    }
    var b2 := reader.ReadByte();
    if b2.None? || b2.value != Separator {
      return None;
    }
    var ticks2 := reader.ReadInt64();
    if ticks2.None? || !IsDateTime(ticks2.value) {
      return None;
    }
    var persistence := reader.ReadByte();
    if persistence.None? || (persistence.value != 0 && persistence.value != 1) {
      return None;
    }
    h := Some(HeaderFields(version.value, ticks.value, ticks2.value, persistence.value == 1));
  }

  /** Deserialize(serializedTicket, serializedTicketLength): null, here None, on every format
      error and on every exception of the reads. */
  method Deserialize(zone: TimeZone, serializedTicket: seq<byte>, serializedTicketLength: Int32)
    returns (ticket: Option<FormsAuthenticationTicket>)
    ensures ticket == Parse(zone, serializedTicket, serializedTicketLength)
  {
    var reader := new SerializingBinaryReader(serializedTicket);
    var h := DeserializeHeader(reader);
    if h.None? {
      return None;
    }
    var name := reader.ReadBinaryString();
    if name.None? {
      return None;
    }
    var p1 := reader.position;
    var userData := reader.ReadBinaryString();
    if userData.None? {
      return None;
    }
    var p2 := reader.position;
    var cookiePath := reader.ReadBinaryString();
    if cookiePath.None? {
      return None;
    }
    var p3 := reader.position;
    var b3 := reader.ReadByte();
    if b3.None? || b3.value != Trailer {
      return None;
    }
    ParseFieldsOf(zone, serializedTicket, h.value, name.value, userData.value, cookiePath.value,
                  p1, p2, p3, reader.position);
    if reader.position != serializedTicketLength {
      return None;
    }
    ticket := Some(FromUtc(zone, h.value.version, name.value, h.value.issueDateUtc, h.value.expirationUtc,
                           h.value.isPersistent, userData.value, cookiePath.value));
  }

  /** Serialize(ticket): the header, the three strings and the trailer. None where a string
      of 2^30 code units or more makes WriteBinaryString throw. */
  method Serialize(zone: TimeZone, ticket: FormsAuthenticationTicket) returns (bytes: Option<seq<byte>>)
    ensures bytes == if ShortStrings(ticket) then Some(Serialized(zone, ticket)) else None
  {
    var writer := new SerializingBinaryWriter();
    writer.WriteByte(FormatVersion);
    writer.WriteByte(ticket.version % 256);  // (byte)ticket.Version
    writer.WriteInt64(ticket.IssueDateUtc(zone));
    writer.WriteByte(Separator);
    writer.WriteInt64(ticket.ExpirationUtc(zone));
    writer.WriteBool(ticket.isPersistent);
    var header := writer.stream;
    assert header == Header(zone, ticket);
    var ok := writer.WriteBinaryString(ticket.name);
    if !ok {
      return None;
    }
    ok := writer.WriteBinaryString(ticket.userData);
    if !ok {
      return None;
    }
    ok := writer.WriteBinaryString(ticket.cookiePath);
    if !ok {
      return None;
    }
    writer.WriteByte(Trailer);
    bytes := Some(writer.stream);
    assert writer.stream == Serialized(zone, ticket) by {
      var a, b, c := BinaryStringBytes(ticket.name), BinaryStringBytes(ticket.userData),
                     BinaryStringBytes(ticket.cookiePath);
      assert writer.stream == header + a + b + c + [Trailer];
      AppendAssociative4(header, a, b, c, [Trailer]);
    }
  }

  lemma AppendAssociative4(h: seq<byte>, a: seq<byte>, b: seq<byte>, c: seq<byte>, d: seq<byte>)
    ensures h + a + b + c + d == h + (a + (b + (c + d)))
  {
  }
}
