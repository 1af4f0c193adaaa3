/** The command-line driver: the purpose catalog, the "0x" prefix strip of hex inputs, and the
    decisions of Main on already parsed arguments. Option parsing, file reading and console
    output are not modelled; the cryptographic collaborators and the decoders the driver calls
    are parameters (an Environment); the decoders and the decryptor may fail. */
module Crypter {

  import opened Wrappers
  import opened NetTypes
  import opened Tickets
  import opened TicketFormat
  import opened TicketSerializer

  /** System.Web.Security.Cryptography.Purpose: a primary purpose and specific purposes. */
  datatype Purpose = Purpose(primaryPurpose: string, specificPurposes: seq<string>)

  /** Purpose.AppendSpecificPurposes: the same primary purpose, more specific purposes after
      the existing ones. The ensures only spell out the body, as an aid to callers. */
  function AppendSpecificPurposes(p: Purpose, specificPurposes: seq<string>): (r: Purpose)
    ensures r.primaryPurpose == p.primaryPurpose
    ensures |r.specificPurposes| == |p.specificPurposes| + |specificPurposes|
    ensures r.specificPurposes[..|p.specificPurposes|] == p.specificPurposes
    ensures r.specificPurposes[|p.specificPurposes|..] == specificPurposes
  {
    Purpose(p.primaryPurpose, p.specificPurposes + specificPurposes)
  }

  const OwinCookie: string := "owin.cookie"
  const FormsCookie: string := "forms.cookie"

  /** The purposeMap dictionary; `userProtect` is Purpose.User_MachineKey_Protect, which the
      driver takes from outside. */
  function PurposeMap(userProtect: Purpose): (m: map<string, Purpose>)
    ensures m.Keys == {OwinCookie, FormsCookie}
  {
    map[OwinCookie := AppendSpecificPurposes(userProtect,
                        ["Microsoft.Owin.Security.Cookies.CookieAuthenticationMiddleware",
                         "ApplicationCookie", "v1"]),
        FormsCookie := Purpose("FormsAuthentication.Ticket", [])]
  }

  /** purposeMap.TryGetValue with the ordinal comparer: exact, case-sensitive key match. */
  function LookupPurpose(userProtect: Purpose, key: string): (r: Option<Purpose>)
    ensures r.Some? <==> key == OwinCookie || key == FormsCookie
    ensures key == OwinCookie ==>
      r == Some(Purpose(userProtect.primaryPurpose,
                        userProtect.specificPurposes
                        + ["Microsoft.Owin.Security.Cookies.CookieAuthenticationMiddleware",
                           "ApplicationCookie", "v1"]))
    ensures key == FormsCookie ==> r == Some(Purpose("FormsAuthentication.Ticket", []))
  {
    var m := PurposeMap(userProtect);
    if key in m then Some(m[key]) else None
  }

  /** StartsWith("0x", StringComparison.OrdinalIgnoreCase). */
  predicate HasHexPrefix(s: string) {
    |s| >= 2 && s[0] == '0' && (s[1] == 'x' || s[1] == 'X')
  }

  /** Drops one leading "0x" or "0X" and nothing else. */
  function StripHexPrefix(s: string): (r: string)
    ensures |r| <= |s| && s[|s| - |r|..] == r
    ensures HasHexPrefix(s) ==> |s| - |r| == 2
    ensures !HasHexPrefix(s) ==> r == s
  {
    if HasHexPrefix(s) then s[2..] else s
  }

  /** The prefix strip is applied once: what is left may itself start with "0x". */
  lemma StripHexPrefixOnce()
    ensures StripHexPrefix("0x0xAB") == "0xAB"
    ensures StripHexPrefix("0XAB") == "AB"
    ensures StripHexPrefix("x0AB") == "x0AB"
  {
    assert HasHexPrefix("0x0xAB") && HasHexPrefix("0XAB") && !HasHexPrefix("x0AB");
    assert "0x0xAB"[2..] == "0xAB";
    assert "0XAB"[2..] == "AB";
  }

  /** What option parsing leaves behind: the five option values (None where an option was not
      given), the text to decrypt (the first free argument, else the content of the input
      file), and whether help was asked for or parsing failed with an OptionException. */
  datatype Arguments = Arguments(
    validationKey: Option<string>,
    decryptionKey: Option<string>,
    purposeKey: Option<string>,
    isBase64: bool,
    textToDecrypt: Option<string>,
    showHelp: bool)

  /** A byte[] as .NET has it: its length fits an Int32. */
  type ByteArray = s: seq<byte> | |s| < 0x8000_0000

  /** What the driver hands the decryptor. */
  datatype DecryptRequest = DecryptRequest(purpose: Purpose, decryptionKey: seq<byte>,
                                           validationKey: seq<byte>, isOwin: bool,
                                           encryptedData: seq<byte>)

  /** The collaborators of Main: Purpose.User_MachineKey_Protect, CryptoUtil.HexToBinary and
      HttpEncoder.UrlTokenDecode (None for null or FormatException), AspNetDecryptor.DecryptData
      (None where it throws), and the machine's time zone for the ticket. */
  datatype Environment = Environment(
    userProtect: Purpose,
    hexToBinary: string -> Option<seq<byte>>,
    urlTokenDecode: string -> Option<seq<byte>>,
    decryptData: DecryptRequest -> Option<ByteArray>,
    zone: TimeZone)

  /** How a run of Main ends. The last three print the plaintext first; TicketNotDecoded ends
      with the NullReferenceException of reading a null ticket, DecryptionFailed with the
      exception of the decryptor. */
  datatype Outcome =
    | Help
    | InvalidKey
    | InvalidData
    | DecryptionFailed(request: DecryptRequest)
    | Plaintext(request: DecryptRequest, plaintext: ByteArray)
    | TicketShown(request: DecryptRequest, plaintext: ByteArray, ticket: FormsAuthenticationTicket)
    | TicketNotDecoded(request: DecryptRequest, plaintext: ByteArray)
  {
    predicate Decrypts() {
      DecryptionFailed? || Plaintext? || TicketShown? || TicketNotDecoded?
    }
  }

  /** The argument checks of Main: missing data, a missing key or purpose, or an unknown
      purpose key make it show help instead of decrypting. */
  predicate NeedsHelp(args: Arguments, userProtect: Purpose) {
    args.showHelp || args.textToDecrypt.None?
    || args.validationKey.None? || args.decryptionKey.None? || args.purposeKey.None?
    || LookupPurpose(userProtect, args.purposeKey.value).None?
  }

  /** The argument checks of Main, in its order: the purpose to decrypt with, or None where
      Main sets showhelp. */
  method CheckArguments(args: Arguments, userProtect: Purpose) returns (purpose: Option<Purpose>)
    ensures purpose.None? <==> NeedsHelp(args, userProtect)
    ensures purpose.Some? ==> purpose == LookupPurpose(userProtect, args.purposeKey.value)
  {
    var showhelp := args.showHelp;
    if !showhelp && args.textToDecrypt.None? {
      showhelp := true;  // "please provide data to decrypt"
    }
    if !showhelp && (args.validationKey.None? || args.decryptionKey.None? || args.purposeKey.None?) {
      showhelp := true;  // "all parameters are required"
    }
    purpose := None;
    if !showhelp {
      purpose := LookupPurpose(userProtect, args.purposeKey.value);
      if purpose.None? {
        showhelp := true;  // "invalid purpose"
      }
    }
    if showhelp {
      purpose := None;
    }
  }

  /** Main working on parsed arguments. */
  method Run(args: Arguments, env: Environment) returns (r: Outcome)
    ensures r.Help? <==> NeedsHelp(args, env.userProtect)
    ensures !r.Help? ==>
      var dk := env.hexToBinary(StripHexPrefix(args.decryptionKey.value));
      var vk := env.hexToBinary(StripHexPrefix(args.validationKey.value));
      var text := args.textToDecrypt.value;
      var data := if args.isBase64 then env.urlTokenDecode(text) else env.hexToBinary(StripHexPrefix(text));
      (r.InvalidKey? <==> dk.None? || vk.None?) &&
      (r.InvalidData? <==> dk.Some? && vk.Some? && data.None?) &&
      (r.Decrypts() ==>
         r.request == DecryptRequest(LookupPurpose(env.userProtect, args.purposeKey.value).value,
                                     dk.value, vk.value, args.purposeKey.value == OwinCookie, data.value))
    ensures r.Decrypts() ==>
      (r.DecryptionFailed? <==> env.decryptData(r.request).None?) &&
      (!r.DecryptionFailed? ==> r.plaintext == env.decryptData(r.request).value) &&
      (r.TicketShown? || r.TicketNotDecoded? <==> !r.DecryptionFailed? && args.purposeKey.value == FormsCookie)
    ensures r.TicketShown? ==> Parse(env.zone, r.plaintext, |r.plaintext|) == Some(r.ticket)
    ensures r.TicketNotDecoded? ==> Parse(env.zone, r.plaintext, |r.plaintext|).None?
  {
    var purpose := CheckArguments(args, env.userProtect);
    if purpose.None? {
      return Help;
    }
    var text := args.textToDecrypt.value;
    var encryptedData: Option<seq<byte>>;
    if args.isBase64 {
      encryptedData := env.urlTokenDecode(text);
    } else {
      text := StripHexPrefix(text);
      encryptedData := env.hexToBinary(text);
    }
    var decryptionKey := env.hexToBinary(StripHexPrefix(args.decryptionKey.value));
    var validationKey := env.hexToBinary(StripHexPrefix(args.validationKey.value));
    if decryptionKey.None? || validationKey.None? {
      return InvalidKey;
    }
    if encryptedData.None? {
      return InvalidData;
    }
    var purposeKey := args.purposeKey.value;
    var request := DecryptRequest(purpose.value, decryptionKey.value, validationKey.value,
                                  purposeKey == OwinCookie, encryptedData.value);
    r := DecryptAndShow(env, request, purposeKey == FormsCookie);
  }

  /** The end of Main: the decryptor, then the ticket printout when it is wanted. */
  method DecryptAndShow(env: Environment, request: DecryptRequest, showTicket: bool) returns (r: Outcome)
    ensures r.Decrypts() && r.request == request
    ensures r.DecryptionFailed? <==> env.decryptData(request).None?
    ensures !r.DecryptionFailed? ==> r.plaintext == env.decryptData(request).value
    ensures r.TicketShown? || r.TicketNotDecoded? <==> !r.DecryptionFailed? && showTicket
    ensures r.TicketShown? ==> Parse(env.zone, r.plaintext, |r.plaintext|) == Some(r.ticket)
    ensures r.TicketNotDecoded? ==> Parse(env.zone, r.plaintext, |r.plaintext|).None?
  {
    var decryptedData := env.decryptData(request);
    if decryptedData.None? {
      return DecryptionFailed(request);
    }
    var plaintext := decryptedData.value;
    if showTicket {
      var ticket := Deserialize(env.zone, plaintext, |plaintext|);
      if ticket.None? {
        return TicketNotDecoded(request, plaintext);
      }
      return TicketShown(request, plaintext, ticket.value);
    }
    r := Plaintext(request, plaintext);
  }

  /** Only the two catalog keys get past the argument checks, and the OWIN flag and ticket
      decoding are mutually exclusive. */
  lemma DispatchKeys(args: Arguments, userProtect: Purpose)
    requires !NeedsHelp(args, userProtect)
    ensures args.purposeKey.value == OwinCookie || args.purposeKey.value == FormsCookie
    ensures args.purposeKey.value == OwinCookie <==> args.purposeKey.value != FormsCookie
  {
  }
}
