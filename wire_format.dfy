/** The primitive encodings of BinaryWriter and BinaryReader that the ticket layout is built
    from: little-endian Int64, the 7-bit encoded Int32 length prefix, and UTF-16 code units.
    Each encoding is one function; each read is a function of the buffer and a cursor that
    gives back the value and the next cursor, or None where the reader throws. */
module WireFormat {

  import opened Wrappers
  import opened NetTypes

  /** A value read from a buffer and the cursor just after it. */
  datatype Read<+T> = Read(value: T, next: nat)

  function Pow256(n: nat): (r: nat)
    ensures r >= 1
  {
    if n == 0 then 1 else 256 * Pow256(n - 1)
  }

  function Pow128(n: nat): (r: nat)
    ensures r >= 1
  {
    if n == 0 then 1 else 128 * Pow128(n - 1)
  }

  /** The bytes of e stand in buf from pos on. */
  predicate Contains(buf: seq<byte>, pos: nat, e: seq<byte>) {
    pos + |e| <= |buf| && forall i :: 0 <= i < |e| ==> buf[pos + i] == e[i]
  }

  lemma ContainsConcat(p: seq<byte>, e: seq<byte>, q: seq<byte>)
    ensures Contains(p + (e + q), |p|, e)
  {
    var buf := p + (e + q);
    forall i | 0 <= i < |e| ensures buf[|p| + i] == e[i] {
      assert buf[|p| + i] == (e + q)[i];
    }
  }

  lemma ContainsSplit(buf: seq<byte>, pos: nat, a: seq<byte>, b: seq<byte>)
    requires Contains(buf, pos, a + b)
    ensures Contains(buf, pos, a) && Contains(buf, pos + |a|, b)
  {
    forall i | 0 <= i < |a| ensures buf[pos + i] == a[i] {
      assert (a + b)[i] == a[i];
    }
    forall i | 0 <= i < |b| ensures buf[pos + |a| + i] == b[i] {
      assert buf[pos + (|a| + i)] == (a + b)[|a| + i];
    }
  }

  // ---------------------------------------------------------------- little-endian integers

  /** The n low-order bytes of u, least significant first. */
  function LittleEndian(u: nat, n: nat): (r: seq<byte>)
    ensures |r| == n
  {
    if n == 0 then [] else [u % 256] + LittleEndian(u / 256, n - 1)
  }

  /** The unsigned value of the n bytes at pos, least significant first. */
  function LittleEndianAt(buf: seq<byte>, pos: nat, n: nat): (u: nat)
    requires pos + n <= |buf|
    ensures u < Pow256(n)
    decreases |buf| - pos
  {
    if n == 0 then 0 else buf[pos] + 256 * LittleEndianAt(buf, pos + 1, n - 1)
  }

  lemma {:induction false} LittleEndianRoundTrip(buf: seq<byte>, pos: nat, u: nat, n: nat)
    requires u < Pow256(n) && Contains(buf, pos, LittleEndian(u, n))
    ensures LittleEndianAt(buf, pos, n) == u
    decreases n
  {
    if n > 0 {
      var e := LittleEndian(u, n);
      assert e == [u % 256] + LittleEndian(u / 256, n - 1);
      ContainsSplit(buf, pos, [u % 256], LittleEndian(u / 256, n - 1));
      assert buf[pos] == e[0] == u % 256;
      assert u / 256 < Pow256(n - 1);
      LittleEndianRoundTrip(buf, pos + 1, u / 256, n - 1);
    }
  }

  /** The value of n bytes depends on those bytes only. */
  lemma {:induction false} LittleEndianAtAgree(a: seq<byte>, b: seq<byte>, lo: nat, hi: nat, pos: nat, n: nat)
    requires Agree(a, b, lo, hi) && lo <= pos && pos + n <= hi
    ensures LittleEndianAt(a, pos, n) == LittleEndianAt(b, pos, n)
    decreases n
  {
    if n > 0 {
      LittleEndianAtAgree(a, b, lo, hi, pos + 1, n - 1);
    }
  }

  const TwoTo64: int := 0x1_0000_0000_0000_0000

  /** BinaryWriter.Write(long): the two's-complement bytes of x, least significant first. */
  function Int64Bytes(x: Int64): (r: seq<byte>)
    ensures |r| == 8
  {
    LittleEndian(if x < 0 then x + TwoTo64 else x, 8)
  }

  /** The Int64 that BinaryReader.ReadInt64 makes of the eight bytes at pos. */
  function Int64Value(buf: seq<byte>, pos: nat): Int64
    requires pos + 8 <= |buf|
  {
    assert Pow256(8) == TwoTo64;
    var u := LittleEndianAt(buf, pos, 8);
    if u >= TwoTo64 / 2 then u - TwoTo64 else u
  }

  lemma Int64RoundTrip(buf: seq<byte>, pos: nat, x: Int64)
    requires Contains(buf, pos, Int64Bytes(x))
    ensures Int64Value(buf, pos) == x
  {
    assert Pow256(8) == TwoTo64;
    LittleEndianRoundTrip(buf, pos, if x < 0 then x + TwoTo64 else x, 8);
  }

  // ---------------------------------------------------------------- 7-bit encoded integers

  /** Write7BitEncodedInt on the unsigned value v: seven bits per byte, least significant group
      first, the high bit set on every byte but the last. (byte)(v | 0x80) is v % 128 + 128. */
  function Encode7Bit(v: nat): (r: seq<byte>)
    ensures 1 <= |r|
    decreases v
  {
    if v < 128 then [v] else [v % 128 + 128] + Encode7Bit(v / 128)
  }

  /** Write7BitEncodedInt(int value), which first reinterprets value as a uint. */
  function Write7Bit(value: Int32): seq<byte> {
    Encode7Bit(if value < 0 then value + 0x1_0000_0000 else value)
  }

  /** v shifted left by 7 * groups bits, without truncation: v * 128^groups. */
  function Shift7(v: nat, groups: nat): nat
    decreases groups
  {
    if groups == 0 then v else 128 * Shift7(v, groups - 1)
  }

  /** Read7BitEncodedInt as .NET Framework's BinaryReader has it, from the byte at pos onward, with `groups` groups already read
      (the source's shift is 7 * groups) and their bits accumulated in count. The source ORs
      (b & 0x7F) << shift into an int; the groups occupy disjoint bits, so that is the sum
      below, which Read7BitAt truncates once to 32 bits. */
  function Read7BitFrom(buf: seq<byte>, pos: nat, groups: nat, count: nat): (r: Option<Read<nat>>)
    requires groups <= 5
    ensures r.Some? ==> pos < r.value.next <= |buf|
    decreases |buf| - pos
  {
    if groups == 5 then None                   // FormatException: more than five groups
    else if pos >= |buf| then None             // EndOfStreamException
    else
      var b := buf[pos];
      var count' := count + Shift7(b % 128, groups);
      if b < 128 then Some(Read(count', pos + 1))
      else Read7BitFrom(buf, pos + 1, groups + 1, count')
  }

  /** Read7BitEncodedInt from pos: the accumulated bits as an Int32. */
  function Read7BitAt(buf: seq<byte>, pos: nat): (r: Option<Read<Int32>>)
    ensures r.Some? ==> pos < r.value.next <= |buf|
  {
    match Read7BitFrom(buf, pos, 0, 0)
    case None => None
    case Some(count) => Some(Read(Wrap32(count.value), count.next))
  }

  lemma {:induction false} Encode7BitLength(v: nat, n: nat)
    requires 1 <= n && v < Pow128(n)
    ensures |Encode7Bit(v)| <= n
  {
    if v >= 128 {
      assert v / 128 < Pow128(n - 1);
      Encode7BitLength(v / 128, n - 1);
    }
  }

  /** The low group of m at `groups` plus the rest of m one group higher is m at `groups`. */
  lemma {:induction false} SplitGroup(m: nat, groups: nat)
    ensures Shift7(m % 128, groups) + Shift7(m / 128, groups + 1) == Shift7(m, groups)
    decreases groups
  {
    if groups > 0 {
      SplitGroup(m, groups - 1);
    }
  }

  lemma Read7BitStep(buf: seq<byte>, pos: nat, groups: nat, count: nat)
    requires groups < 5 && pos < |buf|
    ensures var count' := count + Shift7(buf[pos] % 128, groups);
      Read7BitFrom(buf, pos, groups, count)
      == if buf[pos] < 128 then Some(Read(count', pos + 1))
         else Read7BitFrom(buf, pos + 1, groups + 1, count')
  {
  }

  /** Read7BitEncodedInt throws FormatException when none of the next bytes it may still read
      (five groups in all) ends the number, and EndOfStreamException when the buffer ends
      first. */
  lemma {:induction false} Read7BitTooLong(buf: seq<byte>, pos: nat, groups: nat, count: nat)
    requires groups <= 5
    requires forall j :: pos <= j < pos + (5 - groups) && j < |buf| ==> buf[j] >= 128
    ensures Read7BitFrom(buf, pos, groups, count) == None
    decreases 5 - groups
  {
    if groups < 5 && pos < |buf| {
      assert buf[pos] >= 128;
      Read7BitTooLong(buf, pos + 1, groups + 1, count + Shift7(buf[pos] % 128, groups));
    }
  }

  /** The first byte of an encoding holds the low seven bits and says whether more follow. */
  lemma Encode7BitHead(m: nat)
    ensures Encode7Bit(m)[0] % 128 == m % 128
    ensures Encode7Bit(m)[0] < 128 <==> m < 128
    ensures m >= 128 ==> Encode7Bit(m) == [Encode7Bit(m)[0]] + Encode7Bit(m / 128)
  {
  }

  /** Reading the encoding of m after `groups` groups adds m's bits above the ones read. */
  lemma {:induction false} Read7BitOfEncoding(buf: seq<byte>, pos: nat, groups: nat, count: nat, m: nat)
    requires groups + |Encode7Bit(m)| <= 5
    requires Contains(buf, pos, Encode7Bit(m))
    ensures Read7BitFrom(buf, pos, groups, count)
         == Some(Read(count + Shift7(m, groups), pos + |Encode7Bit(m)|))
    decreases m
  {
    var e := Encode7Bit(m);
    Encode7BitHead(m);
    var b := buf[pos];
    assert b == e[0];
    Read7BitStep(buf, pos, groups, count);
    if m < 128 {
      assert b % 128 == m;
    } else {
      var rest := Encode7Bit(m / 128);
      var count' := count + Shift7(m % 128, groups);
      assert Read7BitFrom(buf, pos, groups, count) == Read7BitFrom(buf, pos + 1, groups + 1, count');
      ContainsSplit(buf, pos, [b], rest);
      Read7BitOfEncoding(buf, pos + 1, groups + 1, count', m / 128);
      SplitGroup(m, groups);
    }
  }

  /** ReadBinaryString's prefix read gives back every non-negative Int32 that Write7Bit wrote. */
  lemma Read7BitRoundTrip(buf: seq<byte>, pos: nat, value: Int32)
    requires 0 <= value
    requires Contains(buf, pos, Write7Bit(value))
    ensures Read7BitAt(buf, pos) == Some(Read(value, pos + |Write7Bit(value)|))
  {
    assert Pow128(5) == 0x8_0000_0000;
    Encode7BitLength(value, 5);
    Read7BitOfEncoding(buf, pos, 0, 0, value);
    assert Shift7(value, 0) == value;
  }

  // ---------------------------------------------------------------- UTF-16 strings

  /** The code units of s, two bytes each, low byte first: (byte)c and then (byte)(c >> 8). */
  function EncodeUnits(s: seq<UInt16>): (r: seq<byte>)
    ensures |r| == 2 * |s|
  {
    seq(2 * |s|, j requires 0 <= j < 2 * |s| => if j % 2 == 0 then s[j / 2] % 256 else s[j / 2] / 256)
  }

  /** The n code units stored as byte pairs from start, low byte first:
      array[2i] | (array[2i + 1] << 8). */
  function DecodeUnitsAt(buf: seq<byte>, start: nat, n: nat): (r: seq<UInt16>)
    requires start + 2 * n <= |buf|
    ensures |r| == n
  {
    seq(n, i requires 0 <= i < n => buf[start + 2 * i] as int + 256 * (buf[start + 2 * i + 1] as int))
  }

  lemma UnitsRoundTrip(buf: seq<byte>, start: nat, s: seq<UInt16>)
    requires Contains(buf, start, EncodeUnits(s))
    ensures DecodeUnitsAt(buf, start, |s|) == s
  {
    var e := EncodeUnits(s);
    forall i | 0 <= i < |s| ensures DecodeUnitsAt(buf, start, |s|)[i] == s[i] {
      assert (2 * i) % 2 == 0 && (2 * i) / 2 == i;
      assert (2 * i + 1) % 2 == 1 && (2 * i + 1) / 2 == i;
      assert buf[start + 2 * i] == e[2 * i] == s[i] % 256;
      assert buf[start + (2 * i + 1)] == e[2 * i + 1] == s[i] / 256;
    }
  }

  /** WriteBinaryString: the 7-bit encoded length, then the code units. */
  function BinaryStringBytes(s: NetString): seq<byte> {
    Write7Bit(|s|) + EncodeUnits(s)
  }

  /** ReadBinaryString from pos: None wherever the source throws. */
  function BinaryStringAt(buf: seq<byte>, pos: nat): (r: Option<Read<NetString>>)
    ensures r.Some? ==> pos < r.value.next <= |buf|
  {
    match Read7BitAt(buf, pos)
    case None => None
    case Some(num) =>
      var byteCount := Wrap32(num.value * 2);  // unchecked num * 2
      if byteCount < 0 then None               // ReadBytes: ArgumentOutOfRangeException
      else
        // ReadBytes returns fewer bytes than asked when the buffer ends first
        var end := if num.next + byteCount <= |buf| then num.next + byteCount else |buf|;
        if num.value < 0 then None             // new char[num]: OverflowException
        else if end - num.next < 2 * num.value then None  // array[2 * i + 1]: IndexOutOfRangeException
        else
          var units: NetString := DecodeUnitsAt(buf, num.next, num.value);
          Some(Read(units, end))
  }

  /** ReadBinaryString inverts WriteBinaryString for every string shorter than 2^30 code units
      (from 2^30 on, num * 2 overflows and the reader throws). Code units are arbitrary 16-bit
      values, so lone surrogates come back unchanged. */
  lemma BinaryStringRoundTrip(buf: seq<byte>, pos: nat, s: NetString)
    requires |s| < 0x4000_0000
    requires Contains(buf, pos, BinaryStringBytes(s))
    ensures BinaryStringAt(buf, pos) == Some(Read(s, pos + |BinaryStringBytes(s)|))
  {
    var w := Write7Bit(|s|);
    ContainsSplit(buf, pos, w, EncodeUnits(s));
    Read7BitRoundTrip(buf, pos, |s|);
    UnitsRoundTrip(buf, pos + |w|, s);
  }

  // ---------------------------------------------------------------- single bytes and Int64

  /** BinaryReader.ReadByte. Its ensures only spell out the body, as an aid to the proofs
      that use it. */
  function ByteAt(buf: seq<byte>, pos: nat): (r: Option<Read<byte>>)
    ensures r.Some? <==> pos < |buf|
    ensures r.Some? ==> r.value == Read(buf[pos], pos + 1)
  {
    if pos < |buf| then Some(Read(buf[pos], pos + 1)) else None
  }

  /** BinaryReader.ReadInt64. Its ensures only spell out the body, as an aid to the proofs
      that use it; Int64RoundTrip is the law about the value. */
  function Int64At(buf: seq<byte>, pos: nat): (r: Option<Read<Int64>>)
    ensures r.Some? <==> pos + 8 <= |buf|
    ensures r.Some? ==> r.value.next == pos + 8
  {
    if pos + 8 <= |buf| then Some(Read(Int64Value(buf, pos), pos + 8)) else None
  }

  // ---------------------------------------------------------------- reads look at one stretch of bytes

  /** Buffers a and b hold the same bytes at the positions lo until hi. */
  predicate Agree(a: seq<byte>, b: seq<byte>, lo: nat, hi: nat) {
    hi <= |a| && hi <= |b| && forall i :: lo <= i < hi ==> a[i] == b[i]
  }

  /** A buffer agrees with every extension of it on its own bytes. */
  lemma AgreeExtended(p: seq<byte>, q: seq<byte>)
    ensures Agree(p, p + q, 0, |p|)
  {
    forall i | 0 <= i < |p| ensures p[i] == (p + q)[i] {
    }
  }

  /** A varint read gives the same result on any buffer that holds the same bytes where it read. */
  lemma {:induction false} Read7BitFromAgree(a: seq<byte>, b: seq<byte>, lo: nat, hi: nat, pos: nat, groups: nat, count: nat)
    requires groups <= 5 && Read7BitFrom(a, pos, groups, count).Some?
    requires Agree(a, b, lo, hi) && lo <= pos && Read7BitFrom(a, pos, groups, count).value.next <= hi
    ensures Read7BitFrom(b, pos, groups, count) == Read7BitFrom(a, pos, groups, count)
    decreases 5 - groups
  {
    assert a[pos] == b[pos];
    Read7BitStep(a, pos, groups, count);
    Read7BitStep(b, pos, groups, count);
    if a[pos] >= 128 {
      Read7BitFromAgree(a, b, lo, hi, pos + 1, groups + 1, count + Shift7(a[pos] % 128, groups));
    }
  }

  /** A string read gives the same result on any buffer that holds the same bytes where it read. */
  lemma BinaryStringAtAgree(a: seq<byte>, b: seq<byte>, lo: nat, hi: nat, pos: nat)
    requires BinaryStringAt(a, pos).Some?
    requires Agree(a, b, lo, hi) && lo <= pos && BinaryStringAt(a, pos).value.next <= hi
    ensures BinaryStringAt(b, pos) == BinaryStringAt(a, pos)
  {
    var num := Read7BitAt(a, pos).value;
    Read7BitFromAgree(a, b, lo, hi, pos, 0, 0);
    assert Read7BitAt(b, pos) == Some(num);
    assert DecodeUnitsAt(b, num.next, num.value) == DecodeUnitsAt(a, num.next, num.value);
  }
}
