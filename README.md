# AspNetCrypter ticket codec, ticket value and driver, in Dafny

AspNetCrypter is a command-line tool that decrypts ASP.NET cookies. Once the cookie is
decrypted, a forms-authentication cookie holds a binary `FormsAuthenticationTicket`. This
project models three parts of the tool and proves properties about them:

- **The ticket serializer** (`FormsAuthenticationTicketSerializer`). It is imperative, as in
  the source:
  - `SerializingBinaryReader` is a class with a fixed buffer and a cursor.
  - `SerializingBinaryWriter` is a class with a growing stream.
  - `ReadBinaryString`, `WriteBinaryString` and the 7-bit length prefix are loops.
  - `Deserialize` and `Serialize` are sequences of reads and writes with early returns.

  Each method is proved to compute a pure function (`WireFormat`, `TicketFormat`). The laws on
  those functions (`TicketLaws`) say the following:
  - the exact byte layout and its length;
  - the round trip `Deserialize(Serialize(t))`;
  - every reject condition;
  - that the version byte is not validated;
  - that the bytes after the declared length cannot change the result;
  - that a prefix redundantly encoded as `0x80 0x00` is still accepted.
- **The ticket value** (`FormsAuthenticationTicket`). It is an immutable record: every
  public member is a getter. Here it is a datatype.
  - The constructors and `FromUtc` are functions. `FromUtc` builds a ticket with the 7-argument
    constructor and then sets four fields; here that is a single record update.
  - The UTC getters and `Expired` are members of the datatype.
  - "Now" and the machine's time-zone conversions are parameters.
- **The driver** (`Program`):
  - the purpose catalog;
  - the case-insensitive `0x` prefix strip;
  - the decisions of `Main`: when help is shown, when a key or the data is rejected, what
    the decryptor receives (including the OWIN flag), and when the ticket is decoded.

  `Main` works on arguments that are already parsed. Its collaborators (hex and base64
  decoders, the decryptor, `Purpose.User_MachineKey_Protect`) are an `Environment` of
  functions. The decoders and the decryptor may fail; `Purpose.User_MachineKey_Protect` is a
  plain value.

Files:
- `wrappers.dfy`: `Option`.
- `net_types.dfy`: `byte`, `UInt16`, `Int32`, `Int64`, the .NET string, `DateTime` as a tick
  count in `0..3155378975999999999`, unchecked 32-bit wrap-around, and `AddMinutes`.
- `ticket.dfy`: the ticket.
- `wire_format.dfy`: the primitive encodings and reads, with their round trips.
- `ticket_format.dfy`: the ticket layout (`Serialized`) and the parser (`ParseHeader`,
  `ParseFields`, `Parse`).
- `ticket_laws.dfy`: the laws.
- `serializer.dfy`: the reader and writer classes, `Deserialize` and `Serialize`.
- `program.dfy`: the driver.

Every reader failure becomes `None`. This covers both the explicit `return null` checks and
the exceptions, because `Deserialize` catches everything and returns null. The exceptions are:
- end of stream;
- more than five groups in a length prefix;
- `num * 2` overflowing to a negative count;
- a negative unit count;
- a `ReadBytes` result shorter than `2 * num`;
- ticks outside the `DateTime` range.

Code units are arbitrary 16-bit values, so a lone surrogate survives both directions.

## Model

| member | source | states |
|---|---|---|
| Tickets.Create | AspNetCrypter/System.Web.Security/FormsAuthenticationTicket.cs:92-101 | The seven-argument constructor stores every argument unchanged. It pins no UTC instant, so in every time zone both UTC getters instead convert the stored local views to universal time. |
| Tickets.FromUtc | AspNetCrypter/System.Web.Security/FormsAuthenticationTicket.cs:118-126 | Both HasValue flags are set. In every time zone, IssueDateUtc and ExpirationUtc return exactly the arguments. Version, name, persistence, user data and cookie path are stored unchanged. The local views are the arguments converted to local time. |
| Tickets.CreateWithTimeout | AspNetCrypter/System.Web.Security/FormsAuthenticationTicket.cs:103-116 | The ticket exists iff both AddMinutes calls stay in the DateTime range. Then the version is 2, the user data is empty, and the cookie path is FormsCookiePath. IssueDateUtc is "utc now" in every zone. ExpirationUtc minus IssueDateUtc is timeout minutes, and so is the local expiration minus the local issue date. |
| NetTypes.AddMinutesInverse | AspNetCrypter/System.Web.Security/FormsAuthenticationTicket.cs:113-114 | Whenever adding m minutes stays in the DateTime range, adding -m minutes to the result also does and gives back the original instant (for every m except the most negative Int32). |
| Tickets.ExpiredMonotone | AspNetCrypter/System.Web.Security/FormsAuthenticationTicket.cs:51 | Once expired, a ticket remains expired at every later instant. Not expired at an instant implies not expired at every earlier one. |
| Tickets.FromUtcExpired | AspNetCrypter/System.Web.Security/FormsAuthenticationTicket.cs:51-79 | For a ticket from FromUtc, Expired compares the pinned expiration with now, in any time zone. |
| WireFormat.Int64RoundTrip | AspNetCrypter/System.Web.Security/FormsAuthenticationTicketSerializer.cs:75 | ReadInt64 of the eight little-endian two's-complement bytes of x gives x back, for every Int64 x. Negative values are included. |
| WireFormat.Read7BitRoundTrip | AspNetCrypter/System.Web.Security/FormsAuthenticationTicketSerializer.cs:17 | The prefix read gives back every non-negative Int32 that Write7BitEncodedInt wrote. The cursor ends just after the encoding. |
| WireFormat.Read7BitTooLong | AspNetCrypter/System.Web.Security/FormsAuthenticationTicketSerializer.cs:17 | The prefix read fails when none of the remaining bytes of its five-byte budget is below 0x80, whether the buffer ends first or not. |
| WireFormat.UnitsRoundTrip | AspNetCrypter/System.Web.Security/FormsAuthenticationTicketSerializer.cs:20-23 | Assembling each unit from the low and high byte inverts the split of WriteBinaryString, for every sequence of 16-bit units. |
| WireFormat.BinaryStringRoundTrip | AspNetCrypter/System.Web.Security/FormsAuthenticationTicketSerializer.cs:15-25 | ReadBinaryString inverts WriteBinaryString for every string shorter than 2^30 units. The cursor ends just after the string's bytes. |
| WireFormat.BinaryStringAtAgree | AspNetCrypter/System.Web.Security/FormsAuthenticationTicketSerializer.cs:15-25 | A string read gives the same result on any buffer that holds the same bytes where it read. |
| TicketFormat.ParseFields | AspNetCrypter/System.Web.Security/FormsAuthenticationTicketSerializer.cs:61-105 | A successful parse ends with a cursor at least 21 bytes in, just after a 255 byte. |
| TicketLaws.SerializedLength | AspNetCrypter/System.Web.Security/FormsAuthenticationTicketSerializer.cs:120-139 | Serialize writes 21 fixed bytes. Each string adds its length prefix plus two bytes per code unit. |
| TicketLaws.HeaderRoundTrip | AspNetCrypter/System.Web.Security/FormsAuthenticationTicketSerializer.cs:69-97 | The 20 header bytes Serialize writes read back as the version's low byte, the two UTC tick counts and the persistence flag, whatever follows them. |
| TicketLaws.RoundTrip | AspNetCrypter/System.Web.Security/FormsAuthenticationTicketSerializer.cs:61-139 | Deserialize(Serialize(t), its length) is FromUtc of t's version mod 256 and t's name, UTC instants, persistence, user data and cookie path. This holds whenever every string is shorter than 2^30 units. |
| TicketLaws.EncodeDecodeEncode | AspNetCrypter/System.Web.Security/FormsAuthenticationTicketSerializer.cs:61-139 | For every ticket whose strings are shorter than 2^30 units, Serialize's output decodes, and serializing the decoded ticket gives back exactly the same bytes. |
| TicketLaws.HeaderAcceptance | AspNetCrypter/System.Web.Security/FormsAuthenticationTicketSerializer.cs:69-97 | The header is accepted iff all of these hold: at least 20 bytes; byte 0 is 1; both tick counts are valid DateTimes; byte 10 is 254; byte 19 is 0 or 1. The fields then come from offsets 1, 2, 11 and 19, and the flag is true iff byte 19 is 1. |
| TicketLaws.AcceptedShape | AspNetCrypter/System.Web.Security/FormsAuthenticationTicketSerializer.cs:61-110 | An accepted buffer has an accepted header and a 255 byte just before the declared length. The ticket's version and flag come from bytes 1 and 19. Its pinned UTC instants are the two tick counts. |
| TicketLaws.DecodedExpired | AspNetCrypter/System.Web.Security/FormsAuthenticationTicket.cs:51 | A decoded ticket is expired, in every time zone, exactly when the tick count stored at offset 11 lies strictly before now. |
| TicketLaws.LengthDetermined | AspNetCrypter/System.Web.Security/FormsAuthenticationTicketSerializer.cs:106-109 | At most one length argument makes a buffer parse: the position just after the trailer. |
| TicketLaws.ParseFieldsAgree | AspNetCrypter/System.Web.Security/FormsAuthenticationTicketSerializer.cs:61-105 | The parse up to the trailer only looks at the bytes it consumes. Any buffer that agrees with the given one on those bytes gives the same result. |
| TicketLaws.BeyondLength | AspNetCrypter/System.Web.Security/FormsAuthenticationTicketSerializer.cs:61-109 | For every buffer and every length argument up to its size, appending bytes does not change the result, whether the shorter buffer is accepted or not. |
| TicketLaws.BytesBeyondLengthIgnored | AspNetCrypter/System.Web.Security/FormsAuthenticationTicketSerializer.cs:106-109 | Appending bytes after an accepted ticket does not change the result for the same length argument. |
| TicketLaws.TrailingBytesRejected | AspNetCrypter/System.Web.Security/FormsAuthenticationTicketSerializer.cs:106-109 | If the whole buffer is declared as the length, appending any byte makes Deserialize fail. |
| TicketLaws.TruncationRejected | AspNetCrypter/System.Web.Security/FormsAuthenticationTicketSerializer.cs:61-117 | Take a buffer accepted with its whole length as the length argument. No proper prefix of it parses, whatever length is declared. |
| TicketLaws.VersionSwap | AspNetCrypter/System.Web.Security/FormsAuthenticationTicketSerializer.cs:74 | Two buffers that differ only in byte 1 parse alike, except for the version, which is that byte. |
| TicketLaws.VersionNotValidated | AspNetCrypter/System.Web.Security/FormsAuthenticationTicketSerializer.cs:74 | Replacing byte 1 with any byte v does not change whether Deserialize succeeds. On success, the result differs only in having version v. |
| TicketLaws.OverlongLengthAccepted | AspNetCrypter/System.Web.Security/FormsAuthenticationTicketSerializer.cs:17 | Take a ticket whose strings are all empty, and write its name's length prefix as 0x80 0x00. Those bytes differ from Serialize's output, yet they decode to the same ticket. |
| TicketSerializer.SerializingBinaryReader.ReadByte | AspNetCrypter/System.Web.Security/FormsAuthenticationTicketSerializer.cs:69 | The method succeeds iff a byte is left at the cursor. It then returns that byte and advances the cursor by one (ByteAt). |
| TicketSerializer.SerializingBinaryReader.ReadInt64 | AspNetCrypter/System.Web.Security/FormsAuthenticationTicketSerializer.cs:75 | The method succeeds iff eight bytes are left. It then returns their little-endian two's-complement value and advances the cursor by eight (Int64At, with Int64RoundTrip as its inverse). |
| TicketSerializer.SerializingBinaryReader.ReadBytes | AspNetCrypter/System.Web.Security/FormsAuthenticationTicketSerializer.cs:18 | A negative count fails. Otherwise the method returns the bytes from the cursor to the cursor plus count, or to the end of the buffer if that comes first, and moves the cursor there. |
| TicketSerializer.SerializingBinaryReader.Read7BitEncodedInt | AspNetCrypter/System.Web.Security/FormsAuthenticationTicketSerializer.cs:17 | The loop computes Read7BitAt at the old cursor, failures included. |
| TicketSerializer.SerializingBinaryReader.ReadBinaryString | AspNetCrypter/System.Web.Security/FormsAuthenticationTicketSerializer.cs:15-25 | The prefix read, the ReadBytes call and the filling loop compute BinaryStringAt at the old cursor, every exception included. |
| TicketSerializer.SerializingBinaryWriter.Write7BitEncodedInt | AspNetCrypter/System.Web.Security/FormsAuthenticationTicketSerializer.cs:54 | The loop appends exactly the 7-bit encoding of the value, reinterpreted as unsigned. |
| TicketSerializer.SerializingBinaryWriter.WriteBinaryString | AspNetCrypter/System.Web.Security/FormsAuthenticationTicketSerializer.cs:45-56 | The method succeeds iff the string is shorter than 2^30 units. On success it appends the length prefix and the string's byte pairs. Otherwise it writes nothing. |
| TicketSerializer.DeserializeHeader | AspNetCrypter/System.Web.Security/FormsAuthenticationTicketSerializer.cs:69-97 | The six header reads and their checks compute ParseHeader. On success they leave the cursor at 20. |
| TicketSerializer.Deserialize | AspNetCrypter/System.Web.Security/FormsAuthenticationTicketSerializer.cs:61-118 | The sequence of reads, checks and the final position test computes Parse. |
| TicketSerializer.Serialize | AspNetCrypter/System.Web.Security/FormsAuthenticationTicketSerializer.cs:120-139 | If every string is shorter than 2^30 units, the writer's bytes are exactly the ticket layout. Otherwise Serialize fails. |
| Crypter.PurposeMap | AspNetCrypter/Program.cs:15-22 | The catalog has exactly the two keys "owin.cookie" and "forms.cookie". |
| Crypter.LookupPurpose | AspNetCrypter/Program.cs:68 | The lookup succeeds iff the key is exactly "owin.cookie" or "forms.cookie". "owin.cookie" gives the base purpose followed by the three OWIN labels, in order. "forms.cookie" gives the purpose "FormsAuthentication.Ticket" with no specific purposes. |
| Crypter.StripHexPrefix | AspNetCrypter/Program.cs:90-98 | The result is a suffix of the input. Exactly two characters are dropped iff the input starts with "0x" or "0X", and none otherwise. |
| Crypter.StripHexPrefixOnce | AspNetCrypter/Program.cs:90-92 | Examples, as documentation: the prefix is stripped at most once ("0x0xAB" becomes "0xAB"), "0X" counts as a prefix, and "x0" does not. |
| Crypter.CheckArguments | AspNetCrypter/Program.cs:57-76 | The checks yield a purpose iff these all hold: help was not requested, the data and both keys and the purpose are given, and the purpose is in the catalog. The purpose is then the catalog entry. |
| Crypter.Run | AspNetCrypter/Program.cs:24-122 | Help is shown iff an argument check fails; see the note after this table for the other outcomes. |
| Crypter.DecryptAndShow | AspNetCrypter/Program.cs:112-121 | The decryptor is called with the given request. The ticket is decoded iff decryption succeeded and the purpose is "forms.cookie". The decode is Deserialize of the whole plaintext. |
| Crypter.DispatchKeys | AspNetCrypter/Program.cs:112-121 | Past the argument checks, the purpose key is exactly one of the two catalog keys. So the OWIN flag and ticket decoding never apply to the same run. |

When the argument checks pass, `Crypter.Run` ends in one of these ways:
- The key is rejected iff either stripped key fails hex decoding.
- Otherwise the data is rejected iff it fails to decode: as base64 when the `base64` option
  is set, else as hex after the prefix strip.
- Otherwise the decryptor receives:
  - the catalog purpose;
  - both keys;
  - the OWIN flag, which is set iff the purpose key is "owin.cookie";
  - the decoded data.
- The ticket is decoded iff decryption succeeds and the purpose key is "forms.cookie".

## Left out

- Option parsing (NDesk.Options), the input file, `ShowHelp` with its assembly reflection,
  and all console output: these are I/O. `Main` starts from an `Arguments` value. The flag
  `showHelp` says whether help was requested or parsing threw an `OptionException`, and a
  missing input file is one such exception.
- `CryptoUtil.HexToBinary`, `HttpEncoder.UrlTokenDecode`, `AspNetDecryptor`,
  `CryptographicKey`, `Purpose.User_MachineKey_Protect` and `Hexify.Hex.PrettyPrint`: their
  source is not part of this model. They are fields of `Environment`. A decoder's null result
  or `FormatException` is `None`, and so is a decryptor exception (`DecryptionFailed`).
- `Crypter.DecryptAndShow`: `WriteFormsAuthenticadtionTicket` reads a null ticket without a
  check, so a ticket that does not decode ends the run with a `NullReferenceException`. The
  model records this as `TicketNotDecoded`, an abnormal end after the plaintext is printed,
  not as a graceful message. The ticket printout itself is output and is not modelled.
- `DateTime.ToLocalTime`, `ToUniversalTime`, `UtcNow` and `Now` are parameters. A `TimeZone`
  is a pair of functions, so the range clamping and the `DateTime.Kind` are not modelled.
  `Deserialize` also computes two local times that it never uses; the model leaves them out.
- The six-argument constructor reads `FormsAuthentication.FormsCookiePath`, which is outside
  this model, and nothing in the core calls it. The three-argument constructor takes that
  path as a parameter.
- `_InternalVersion`, `_InternalData` and the serialization attributes: the code never uses
  them.
- `ReadString` and `Write(string)`: both throw `NotImplementedException`, and the codec never
  calls them.
- A null `serializedTicket`, null strings and a null ticket: inputs here are never null.
- `Crypter.AppendSpecificPurposes`: the source of `Purpose` is not part of this model. The
  method is assumed to keep the primary purpose and to append the new specific purposes after
  the existing ones, as ASP.NET's `Purpose.AppendSpecificPurposes` does.
- `Tickets.FromUtc`: the source builds the object and then assigns four of its fields. The
  model gives the same final record as one update of an immutable value, so the object
  identity of the ticket is not modelled.
- `TicketSerializer.Serialize`: the `byte[]` that `ToArray` returns is a sequence, so the
  model does not capture that the result is a fresh array.
- `TicketFormat.Serialized` assumes every string is shorter than 2^30 code units. For longer
  strings, `WriteBinaryString`'s unchecked `value.Length * 2` is negative and the source
  throws. `TicketSerializer.Serialize` models that failure.

Notes on the behaviour the model follows:
- **Length prefixes.** The prefix read follows .NET Framework's
  `BinaryReader.Read7BitEncodedInt`: it fails only when five bytes pass without one below
  0x80 (`WireFormat.Read7BitTooLong`), and it truncates the fifth group to 32 bits. The newer
  .NET (Core 3.0 and later) also rejects a fifth byte above 0x0F; that reader is not modelled.
  A redundant encoding such as `0x80 0x00` is accepted
  (`TicketLaws.OverlongLengthAccepted`). So
  decoding followed by encoding is not the identity on accepted input; it is the identity
  only on `Serialize`'s own output (`TicketLaws.EncodeDecodeEncode`).
- **Length check.** `Deserialize` compares only the cursor with the length argument, and the
  stream holds the whole array, so a length prefix can make `ReadBytes` read past the
  declared length. Such a parse ends beyond the length and fails the final test, so the bytes
  after the declared length cannot change the result (`TicketLaws.BeyondLength`, for every
  buffer; `TicketLaws.BytesBeyondLengthIgnored`, for an accepted one).
- **Version.** `Serialize` keeps only the low eight bits of the version, so a version outside
  0..255 does not survive the round trip.
- **Fixed bytes.** The layout has 21 fixed bytes: 1 + 1 + 8 + 1 + 8 + 1 + 1.
