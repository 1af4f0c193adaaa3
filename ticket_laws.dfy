/** The laws of the ticket wire format: the exact length of an encoding, the round trip,
    and the reject conditions of the parser. */
module TicketLaws {

  import opened Wrappers
  import opened NetTypes
  import opened Tickets
  import opened WireFormat
  import opened TicketFormat

  /** Serialize writes 21 fixed bytes plus, for each string, its length prefix and two bytes
      per code unit. */
  lemma SerializedLength(zone: TimeZone, t: FormsAuthenticationTicket)
    ensures |Serialized(zone, t)|
         == 21 + |Write7Bit(|t.name|)| + 2 * |t.name|
               + |Write7Bit(|t.userData|)| + 2 * |t.userData|
               + |Write7Bit(|t.cookiePath|)| + 2 * |t.cookiePath|
  {
  }

  /** Every string of t is shorter than 2^30 code units, so that the unchecked product
      length * 2 in WriteBinaryString and ReadBinaryString does not overflow. */
  predicate ShortStrings(t: FormsAuthenticationTicket) {
    |t.name| < 0x4000_0000 && |t.userData| < 0x4000_0000 && |t.cookiePath| < 0x4000_0000
  }

  /** The header of t reads back as t's version byte, UTC instants and flag, whatever follows it. */
  lemma HeaderRoundTrip(zone: TimeZone, t: FormsAuthenticationTicket, rest: seq<byte>)
    ensures ParseHeader(Header(zone, t) + rest)
         == Some(HeaderFields(t.version % 256, t.IssueDateUtc(zone), t.ExpirationUtc(zone), t.isPersistent))
  {
    var h := Header(zone, t);
    var buf := h + rest;
    var issue, expiration := t.IssueDateUtc(zone), t.ExpirationUtc(zone);
    assert buf[0] == h[0] == 1 && buf[1] == h[1] == t.version % 256 && buf[10] == h[10] == Separator;
    assert buf[19] == h[19] == if t.isPersistent then 1 else 0;
    assert Contains(buf, 2, Int64Bytes(issue)) by {
      forall i | 0 <= i < 8 ensures buf[2 + i] == Int64Bytes(issue)[i] {
        assert buf[2 + i] == h[2 + i];
      }
    }
    assert Contains(buf, 11, Int64Bytes(expiration)) by {
      forall i | 0 <= i < 8 ensures buf[11 + i] == Int64Bytes(expiration)[i] {
        assert buf[11 + i] == h[11 + i];
      }
    }
    Int64RoundTrip(buf, 2, issue);
    Int64RoundTrip(buf, 11, expiration);
  }

  lemma StringAtConcat(buf: seq<byte>, prefix: seq<byte>, s: NetString, rest: seq<byte>, pos: nat, next: nat)
    requires |s| < 0x4000_0000
    requires buf == prefix + (BinaryStringBytes(s) + rest)
    requires pos == |prefix| && next == pos + |BinaryStringBytes(s)|
    ensures BinaryStringAt(buf, pos) == Some(Read(s, next))
    ensures buf == (prefix + BinaryStringBytes(s)) + rest
  {
    ContainsConcat(prefix, BinaryStringBytes(s), rest);
    BinaryStringRoundTrip(buf, pos, s);
  }

  /** ParseFields assembled from the results of its reads. */
  lemma ParseFieldsOf(zone: TimeZone, buf: seq<byte>, h: HeaderFields, name: NetString, userData: NetString,
                      cookiePath: NetString, p1: nat, p2: nat, p3: nat, next: nat)
    requires ParseHeader(buf) == Some(h)
    requires BinaryStringAt(buf, 20) == Some(Read(name, p1))
    requires BinaryStringAt(buf, p1) == Some(Read(userData, p2))
    requires BinaryStringAt(buf, p2) == Some(Read(cookiePath, p3))
    requires ByteAt(buf, p3) == Some(Read(Trailer, next))
    ensures ParseFields(zone, buf)
         == Some(Read(FromUtc(zone, h.version, name, h.issueDateUtc, h.expirationUtc, h.isPersistent,
                              userData, cookiePath), next))
  {
  }

  /** A buffer that holds a parsable header and then three encoded strings and the trailer
      parses to the ticket made of them, with the cursor at its end. */
  lemma StringsParse(zone: TimeZone, buf: seq<byte>, h: seq<byte>, header: HeaderFields,
                     name: NetString, userData: NetString, cookiePath: NetString)
    requires |name| < 0x4000_0000 && |userData| < 0x4000_0000 && |cookiePath| < 0x4000_0000
    requires |h| == 20 && ParseHeader(buf) == Some(header)
    requires buf == h + (BinaryStringBytes(name) + (BinaryStringBytes(userData)
                        + (BinaryStringBytes(cookiePath) + [Trailer])))
    ensures ParseFields(zone, buf)
         == Some(Read(FromUtc(zone, header.version, name, header.issueDateUtc, header.expirationUtc,
                              header.isPersistent, userData, cookiePath), |buf|))
  {
    var n, u, c := BinaryStringBytes(name), BinaryStringBytes(userData), BinaryStringBytes(cookiePath);
    var p1 := 20 + |n|;
    var p2 := p1 + |u|;
    var p3 := p2 + |c|;
    StringAtConcat(buf, h, name, u + (c + [Trailer]), 20, p1);
    StringAtConcat(buf, h + n, userData, c + [Trailer], p1, p2);
    StringAtConcat(buf, h + n + u, cookiePath, [Trailer], p2, p3);
    assert ByteAt(buf, p3) == Some(Read(Trailer, |buf|)) by {
      assert |buf| == p3 + 1 && buf[p3] == Trailer;
    }
    ParseFieldsOf(zone, buf, header, name, userData, cookiePath, p1, p2, p3, |buf|);
  }

  /** Serialize, Deserialize and Serialize again give back the first bytes: re-encoding is the
      identity on Serialize's own output. */
  lemma EncodeDecodeEncode(zone: TimeZone, t: FormsAuthenticationTicket)
    requires ShortStrings(t)
    ensures var s := Serialized(zone, t);
            Parse(zone, s, |s|).Some? && Serialized(zone, Parse(zone, s, |s|).value) == s
  {
    RoundTrip(zone, t);
  }

  /** Deserialize(Serialize(t), |Serialize(t)|) is the ticket FromUtc makes of t's fields
      and UTC instants, with the version cut to its low byte. */
  lemma RoundTrip(zone: TimeZone, t: FormsAuthenticationTicket)
    requires ShortStrings(t)
    ensures Parse(zone, Serialized(zone, t), |Serialized(zone, t)|)
         == Some(FromUtc(zone, t.version % 256, t.name, t.IssueDateUtc(zone), t.ExpirationUtc(zone),
                         t.isPersistent, t.userData, t.cookiePath))
  {
    var h := Header(zone, t);
    var s := Serialized(zone, t);
    var header := HeaderFields(t.version % 256, t.IssueDateUtc(zone), t.ExpirationUtc(zone), t.isPersistent);
    HeaderRoundTrip(zone, t, s[20..]);
    assert s == h + s[20..];
    StringsParse(zone, s, h, header, t.name, t.userData, t.cookiePath);
  }

  // ---------------------------------------------------------------- what the parser accepts

  /** The checks Deserialize makes before the strings: at least 20 bytes, format byte 1,
      two tick counts that are valid DateTime values, the separator 254, and a persistence
      byte of 0 or 1. The version byte is not checked. */
  predicate HeaderAccepted(buf: seq<byte>) {
    20 <= |buf|
    && buf[0] == FormatVersion
    && IsDateTime(Int64Value(buf, 2))
    && buf[10] == Separator
    && IsDateTime(Int64Value(buf, 11))
    && (buf[19] == 0 || buf[19] == 1)
  }

  /** ParseHeader succeeds exactly on the buffers HeaderAccepted describes, and then reads
      the version, the two instants and the flag from their fixed offsets. */
  lemma HeaderAcceptance(buf: seq<byte>)
    ensures ParseHeader(buf).Some? <==> HeaderAccepted(buf)
    ensures ParseHeader(buf).Some? ==>
      ParseHeader(buf).value
        == HeaderFields(buf[1], Int64Value(buf, 2), Int64Value(buf, 11), buf[19] == 1)
  {
  }

  /** What an accepted buffer looks like, and where each part of the ticket comes from. */
  lemma AcceptedShape(zone: TimeZone, buf: seq<byte>, length: int)
    requires Parse(zone, buf, length).Some?
    ensures HeaderAccepted(buf)
    ensures 21 <= length <= |buf| && buf[length - 1] == Trailer
    ensures var t := Parse(zone, buf, length).value;
      t.version == buf[1] && t.isPersistent == (buf[19] == 1)
      && t.issueDateUtcHasValue && t.expirationUtcHasValue
      && (forall z: TimeZone :: t.IssueDateUtc(z) == Int64Value(buf, 2)
                                && t.ExpirationUtc(z) == Int64Value(buf, 11))
  {
    HeaderAcceptance(buf);
  }

  /** A decoded ticket is expired, in any time zone, exactly when the expiration ticks stored
      at offset 11 lie strictly before now. */
  lemma DecodedExpired(zone: TimeZone, buf: seq<byte>, length: int, other: TimeZone, utcNow: DateTime)
    requires Parse(zone, buf, length).Some?
    ensures 20 <= |buf|
    ensures Parse(zone, buf, length).value.Expired(other, utcNow) <==> Int64Value(buf, 11) < utcNow
  {
    AcceptedShape(zone, buf, length);
  }

  /** The length argument that makes a buffer parse is unique: it is where the trailer ends. */
  lemma LengthDetermined(zone: TimeZone, buf: seq<byte>, length1: int, length2: int)
    requires Parse(zone, buf, length1).Some? && Parse(zone, buf, length2).Some?
    ensures length1 == length2
  {
  }

  // ---------------------------------------------------------------- which bytes the parser reads

  /** The header reads look at the first 20 bytes only. */
  lemma ParseHeaderAgree(a: seq<byte>, b: seq<byte>, hi: nat)
    requires ParseHeader(a).Some? && Agree(a, b, 0, hi) && 20 <= hi
    ensures ParseHeader(b) == ParseHeader(a)
  {
    assert a[0] == b[0] && a[1] == b[1] && a[10] == b[10] && a[19] == b[19];
    LittleEndianAtAgree(a, b, 0, hi, 2, 8);
    LittleEndianAtAgree(a, b, 0, hi, 11, 8);
  }

  /** The three string reads from offset 20 give the same results on a buffer that holds the
      same bytes where they read. */
  lemma StringsAgree(a: seq<byte>, b: seq<byte>, lo: nat, hi: nat)
    requires lo <= 20 && Agree(a, b, lo, hi)
    requires BinaryStringAt(a, 20).Some?
    requires BinaryStringAt(a, BinaryStringAt(a, 20).value.next).Some?
    requires BinaryStringAt(a, BinaryStringAt(a, BinaryStringAt(a, 20).value.next).value.next).Some?
    requires BinaryStringAt(a, BinaryStringAt(a, BinaryStringAt(a, 20).value.next).value.next).value.next <= hi
    ensures BinaryStringAt(b, 20) == BinaryStringAt(a, 20)
    ensures BinaryStringAt(b, BinaryStringAt(a, 20).value.next)
         == BinaryStringAt(a, BinaryStringAt(a, 20).value.next)
    ensures BinaryStringAt(b, BinaryStringAt(a, BinaryStringAt(a, 20).value.next).value.next)
         == BinaryStringAt(a, BinaryStringAt(a, BinaryStringAt(a, 20).value.next).value.next)
  {
    var p1 := BinaryStringAt(a, 20).value.next;
    var p2 := BinaryStringAt(a, p1).value.next;
    BinaryStringAtAgree(a, b, lo, hi, 20);
    BinaryStringAtAgree(a, b, lo, hi, p1);
    BinaryStringAtAgree(a, b, lo, hi, p2);
  }

  /** The reads a successful ParseFields made, with the cursors between them. */
  lemma ParseFieldsShape(zone: TimeZone, buf: seq<byte>)
    returns (h: HeaderFields, name: Read<NetString>, userData: Read<NetString>, cookiePath: Read<NetString>)
    requires ParseFields(zone, buf).Some?
    ensures ParseHeader(buf) == Some(h)
    ensures BinaryStringAt(buf, 20) == Some(name)
    ensures BinaryStringAt(buf, name.next) == Some(userData)
    ensures BinaryStringAt(buf, userData.next) == Some(cookiePath)
    ensures ByteAt(buf, cookiePath.next) == Some(Read(Trailer, cookiePath.next + 1))
    ensures ParseFields(zone, buf).value
         == Read(FromUtc(zone, h.version, name.value, h.issueDateUtc, h.expirationUtc, h.isPersistent,
                         userData.value, cookiePath.value), cookiePath.next + 1)
  {
    h := ParseHeader(buf).value;
    name := BinaryStringAt(buf, 20).value;
    userData := BinaryStringAt(buf, name.next).value;
    cookiePath := BinaryStringAt(buf, userData.next).value;
  }

  /** Deserialize up to the trailer gives the same result on any buffer that holds the same
      bytes up to the trailer. */
  lemma ParseFieldsAgree(zone: TimeZone, a: seq<byte>, b: seq<byte>, hi: nat)
    requires ParseFields(zone, a).Some? && Agree(a, b, 0, hi) && ParseFields(zone, a).value.next <= hi
    ensures ParseFields(zone, b) == ParseFields(zone, a)
  {
    var h, name, userData, cookiePath := ParseFieldsShape(zone, a);
    ParseHeaderAgree(a, b, hi);
    BinaryStringAtAgree(a, b, 0, hi, 20);
    BinaryStringAtAgree(a, b, 0, hi, name.next);
    BinaryStringAtAgree(a, b, 0, hi, userData.next);
    assert b[cookiePath.next] == a[cookiePath.next];
    ParseFieldsOf(zone, b, h, name.value, userData.value, cookiePath.value, name.next, userData.next,
                  cookiePath.next, cookiePath.next + 1);
  }

  /** A buffer that parses up to its trailer parses the same with any bytes appended. */
  lemma ParseFieldsExtended(zone: TimeZone, p: seq<byte>, q: seq<byte>)
    requires ParseFields(zone, p).Some?
    ensures ParseFields(zone, p + q) == ParseFields(zone, p)
  {
    AgreeExtended(p, q);
    ParseFieldsAgree(zone, p, p + q, |p|);
  }

  /** Bytes appended after an accepted buffer do not change the result. */
  lemma BytesBeyondLengthIgnored(zone: TimeZone, buf: seq<byte>, extra: seq<byte>, length: int)
    requires Parse(zone, buf, length).Some?
    ensures Parse(zone, buf + extra, length) == Parse(zone, buf, length)
  {
    ParseFieldsExtended(zone, buf, extra);
  }

  /** Whatever the buffer, bytes after the declared length cannot change the result. The
      reader may still look at them (a length prefix can send ReadBytes past the length), but
      a parse that does ends beyond the length and fails the final Position test either way. */
  lemma BeyondLength(zone: TimeZone, buf: seq<byte>, extra: seq<byte>, length: int)
    requires length <= |buf|
    ensures Parse(zone, buf + extra, length) == Parse(zone, buf, length)
  {
    if Parse(zone, buf, length).Some? {
      BytesBeyondLengthIgnored(zone, buf, extra, length);
    } else if Parse(zone, buf + extra, length).Some? {
      assert Agree(buf + extra, buf, 0, length);
      ParseFieldsAgree(zone, buf + extra, buf, length);
    }
  }

  /** With the whole buffer declared as the length, appending any byte makes Deserialize fail:
      the cursor stops at the trailer, short of the new length. */
  lemma TrailingBytesRejected(zone: TimeZone, buf: seq<byte>, extra: seq<byte>)
    requires Parse(zone, buf, |buf|).Some? && extra != []
    ensures Parse(zone, buf + extra, |buf + extra|) == None
  {
    ParseFieldsExtended(zone, buf, extra);
  }

  /** No proper prefix of an accepted buffer parses, whatever length is declared. */
  lemma TruncationRejected(zone: TimeZone, buf: seq<byte>, k: nat, length: int)
    requires Parse(zone, buf, |buf|).Some? && k < |buf|
    ensures ParseFields(zone, buf[..k]) == None
    ensures Parse(zone, buf[..k], length) == None
  {
    if ParseFields(zone, buf[..k]).Some? {
      assert Agree(buf[..k], buf, 0, k);
      ParseFieldsAgree(zone, buf[..k], buf, k);
    }
  }

  /** The header reader takes the version byte as it is. */
  lemma ParseHeaderVersion(a: seq<byte>, b: seq<byte>)
    requires 2 <= |a| == |b| && a[0] == b[0] && Agree(a, b, 2, |a|)
    requires ParseHeader(a).Some?
    ensures ParseHeader(b) == Some(ParseHeader(a).value.(version := b[1]))
  {
    LittleEndianAtAgree(a, b, 2, |a|, 2, 8);
    LittleEndianAtAgree(a, b, 2, |a|, 11, 8);
    assert a[10] == b[10] && a[19] == b[19];
  }

  /** Bytes that agree everywhere but at the version position parse alike, but for the version. */
  lemma VersionSwap(zone: TimeZone, a: seq<byte>, b: seq<byte>)
    requires 2 <= |a| == |b| && a[0] == b[0] && Agree(a, b, 2, |a|)
    requires ParseFields(zone, a).Some?
    ensures ParseFields(zone, b).Some?
    ensures ParseFields(zone, b).value
         == Read(ParseFields(zone, a).value.value.(version := b[1]), ParseFields(zone, a).value.next)
  {
    var h, name, userData, cookiePath := ParseFieldsShape(zone, a);
    ParseHeaderVersion(a, b);
    StringsAgree(a, b, 2, |a|);
    assert a[cookiePath.next] == b[cookiePath.next];
    ParseFieldsOf(zone, b, h.(version := b[1]), name.value, userData.value, cookiePath.value, name.next,
                  userData.next, cookiePath.next, cookiePath.next + 1);
  }

  /** The version byte does not decide whether the fields parse. */
  lemma ParseFieldsVersion(zone: TimeZone, buf: seq<byte>, v: byte)
    requires 2 <= |buf|
    ensures ParseFields(zone, buf[1 := v]).Some? <==> ParseFields(zone, buf).Some?
    ensures ParseFields(zone, buf).Some? ==>
      ParseFields(zone, buf[1 := v]).value
        == Read(ParseFields(zone, buf).value.value.(version := v), ParseFields(zone, buf).value.next)
  {
    var b := buf[1 := v];
    assert Agree(buf, b, 2, |buf|) && Agree(b, buf, 2, |buf|);
    if ParseFields(zone, buf).Some? {
      VersionSwap(zone, buf, b);
    }
    if ParseFields(zone, b).Some? {
      VersionSwap(zone, b, buf);
    }
  }

  /** Deserialize never checks the ticket version byte: replacing it changes nothing but the
      version of the result. */
  lemma VersionNotValidated(zone: TimeZone, buf: seq<byte>, length: int, v: byte)
    requires 2 <= |buf|
    ensures Parse(zone, buf[1 := v], length).Some? <==> Parse(zone, buf, length).Some?
    ensures Parse(zone, buf, length).Some? ==>
      Parse(zone, buf[1 := v], length).value == Parse(zone, buf, length).value.(version := v)
  {
    ParseFieldsVersion(zone, buf, v);
  }

  // ---------------------------------------------------------------- decode then encode

  /** The length prefix reader accepts a redundant continuation byte: a ticket with empty
      strings whose name length is written as 0x80 0x00 instead of 0x00 decodes to the same
      ticket as its Serialize output, so decoding followed by encoding is not the identity on
      accepted input. */
  lemma OverlongLengthAccepted(zone: TimeZone, t: FormsAuthenticationTicket)
    requires t.name == [] && t.userData == [] && t.cookiePath == []
    ensures var buf := Header(zone, t) + ([0x80, 0x00] + ([0] + ([0] + [Trailer])));
      var s := Serialized(zone, t);
      buf != s && Parse(zone, buf, |buf|) == Parse(zone, s, |s|) != None
  {
    var buf := Header(zone, t) + ([0x80, 0x00] + ([0] + ([0] + [Trailer])));
    HeaderRoundTrip(zone, t, buf[20..]);
    assert buf == Header(zone, t) + buf[20..];
    var h := ParseHeader(buf).value;
    assert buf[20] == 0x80 && buf[21] == 0 && buf[22] == 0 && buf[23] == 0 && buf[24] == Trailer;
    assert Read7BitFrom(buf, 21, 1, 0) == Some(Read(0, 22));
    assert BinaryStringAt(buf, 20) == Some(Read([], 22));
    assert BinaryStringAt(buf, 22) == Some(Read([], 23));
    assert BinaryStringAt(buf, 23) == Some(Read([], 24));
    ParseFieldsOf(zone, buf, h, [], [], [], 22, 23, 24, 25);
    RoundTrip(zone, t);
    SerializedLength(zone, t);
  }
}
