/** The wire layout of a serialized forms-authentication ticket, as a pure encoding function
    and a pure parsing function, with the laws that relate them. The methods of
    TicketSerializer are proved to compute exactly these functions. */
module TicketFormat {

  import opened Wrappers
  import opened NetTypes
  import opened Tickets
  import opened WireFormat

  /** CURRENT_TICKET_SERIALIZED_VERSION, the format byte. */
  const FormatVersion: byte := 1
  /** The byte between the two instants. */
  const Separator: byte := 254
  /** The last byte, byte.MaxValue. */
  const Trailer: byte := 255

  /** The bytes before the three strings: format, version, issue ticks, separator,
      expiration ticks, persistence. */
  function Header(zone: TimeZone, t: FormsAuthenticationTicket): (r: seq<byte>)
    ensures |r| == 20
  {
    [FormatVersion, t.version % 256]          // (byte)ticket.Version keeps the low 8 bits
    + Int64Bytes(t.IssueDateUtc(zone))
    + [Separator]
    + Int64Bytes(t.ExpirationUtc(zone))
    + [if t.isPersistent then 1 else 0]
  }

  /** The bytes Serialize writes for t. */
  function Serialized(zone: TimeZone, t: FormsAuthenticationTicket): seq<byte> {
    Header(zone, t)
    + (BinaryStringBytes(t.name)
       + (BinaryStringBytes(t.userData)
          + (BinaryStringBytes(t.cookiePath)
             + [Trailer])))
  }

  /** What Deserialize reads before the three strings. */
  datatype HeaderFields = HeaderFields(version: byte, issueDateUtc: DateTime, expirationUtc: DateTime,
                                       isPersistent: bool)

  /** Deserialize's reads and checks before the strings, in the source's order. Every read
      before the strings has a fixed size, so each one starts at a fixed offset. */
  function ParseHeader(buf: seq<byte>): (r: Option<HeaderFields>)
    ensures r.Some? ==> 20 <= |buf|
  {
    match ByteAt(buf, 0)
    case None => None
    case Some(format) =>
      if format.value != FormatVersion then None else
      match ByteAt(buf, 1)                                  // any byte is accepted
      case None => None
      case Some(version) =>
        match Int64At(buf, 2)
        case None => None
        case Some(issueTicks) =>
          if !IsDateTime(issueTicks.value) then None else   // new DateTime(ticks) throws
          match ByteAt(buf, 10)
          case None => None
          case Some(separator) =>
            if separator.value != Separator then None else
            match Int64At(buf, 11)
            case None => None
            case Some(expirationTicks) =>
              if !IsDateTime(expirationTicks.value) then None else
              match ByteAt(buf, 19)
              case None => None
              case Some(persistence) =>
                if persistence.value != 0 && persistence.value != 1 then None
                else Some(HeaderFields(version.value, issueTicks.value, expirationTicks.value,
                                       persistence.value == 1))
  }

  /** Deserialize up to and including the trailer: the ticket and the cursor after the
      trailer, or None wherever the source returns null or throws. */
  function ParseFields(zone: TimeZone, buf: seq<byte>): (r: Option<Read<FormsAuthenticationTicket>>)
    ensures r.Some? ==> 21 <= r.value.next <= |buf| && buf[r.value.next - 1] == Trailer
  {
    match ParseHeader(buf)
    case None => None
    case Some(h) =>
      match BinaryStringAt(buf, 20)
      case None => None
      case Some(name) =>
        match BinaryStringAt(buf, name.next)
        case None => None
        case Some(userData) =>
          match BinaryStringAt(buf, userData.next)
          case None => None
          case Some(cookiePath) =>
            match ByteAt(buf, cookiePath.next)
            case None => None
            case Some(trailer) =>
              if trailer.value != Trailer then None
              else Some(Read(FromUtc(zone, h.version, name.value, h.issueDateUtc, h.expirationUtc, h.isPersistent,
                                     userData.value, cookiePath.value),
                             trailer.next))
  }

  /** Deserialize(serializedTicket, serializedTicketLength): the ticket, provided the cursor
      after the trailer equals the length argument. */
  function Parse(zone: TimeZone, buf: seq<byte>, length: int): Option<FormsAuthenticationTicket> {
    match ParseFields(zone, buf)
    case None => None
    case Some(fields) => if fields.next != length then None else Some(fields.value)
  }
}
