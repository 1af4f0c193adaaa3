/** The forms-authentication ticket: an immutable record. Every public member of the
    source class is a read-only getter, so a ticket is a datatype value here; the
    constructors and FromUtc are functions that build one. */
module Tickets {

  import opened Wrappers
  import opened NetTypes

  /** The machine's time-zone conversions (DateTime.ToLocalTime and ToUniversalTime).
      They are not modelled: every member that needs one takes it as a parameter. */
  datatype TimeZone = TimeZone(toLocal: DateTime -> DateTime, toUniversal: DateTime -> DateTime)

  /** The private fields of the ticket. The local views `issueDate` and `expiration` are
      what the constructors store; the UTC values are only meaningful when their flag is set. */
  datatype FormsAuthenticationTicket = FormsAuthenticationTicket(
    version: Int32,
    name: NetString,
    expiration: DateTime,
    issueDate: DateTime,
    isPersistent: bool,
    userData: NetString,
    cookiePath: NetString,
    expirationUtcHasValue: bool,
    expirationUtcValue: DateTime,
    issueDateUtcHasValue: bool,
    issueDateUtcValue: DateTime)
  {
    /** The ExpirationUtc getter: the pinned UTC instant, or the local view converted back. */
    function ExpirationUtc(zone: TimeZone): DateTime {
      if !expirationUtcHasValue then zone.toUniversal(expiration) else expirationUtcValue
    }

    /** The IssueDateUtc getter. */
    function IssueDateUtc(zone: TimeZone): DateTime {
      if !issueDateUtcHasValue then zone.toUniversal(issueDate) else issueDateUtcValue
    }

    /** The Expired getter, with the current UTC instant as a parameter. */
    predicate Expired(zone: TimeZone, utcNow: DateTime) {
      ExpirationUtc(zone) < utcNow
    }
  }

  /** The seven-argument constructor: stores every argument and pins no UTC instant. */
  function Create(version: Int32, name: NetString, issueDate: DateTime, expiration: DateTime,
                  isPersistent: bool, userData: NetString, cookiePath: NetString)
    : (t: FormsAuthenticationTicket)
    ensures t.version == version && t.name == name && t.isPersistent == isPersistent
    ensures t.userData == userData && t.cookiePath == cookiePath
    ensures t.issueDate == issueDate && t.expiration == expiration
    ensures forall zone: TimeZone ::
      t.IssueDateUtc(zone) == zone.toUniversal(issueDate) &&
      t.ExpirationUtc(zone) == zone.toUniversal(expiration)
  {
    FormsAuthenticationTicket(version, name, expiration, issueDate, isPersistent, userData, cookiePath,
                              false, 0, false, 0)
  }

  /** FromUtc: builds the ticket from the local views of the two instants, then pins the UTC
      instants themselves, so that the UTC getters give back exactly the arguments. */
  function FromUtc(zone: TimeZone, version: Int32, name: NetString, issueDateUtc: DateTime,
                   expirationUtc: DateTime, isPersistent: bool, userData: NetString,
                   cookiePath: NetString)
    : (t: FormsAuthenticationTicket)
    ensures t.issueDateUtcHasValue && t.expirationUtcHasValue
    ensures forall z: TimeZone :: t.IssueDateUtc(z) == issueDateUtc && t.ExpirationUtc(z) == expirationUtc
    ensures t.version == version && t.name == name && t.isPersistent == isPersistent
    ensures t.userData == userData && t.cookiePath == cookiePath
    ensures t.issueDate == zone.toLocal(issueDateUtc) && t.expiration == zone.toLocal(expirationUtc)
  {
    var t := Create(version, name, zone.toLocal(issueDateUtc), zone.toLocal(expirationUtc),
                    isPersistent, userData, cookiePath);
    t.(issueDateUtcHasValue := true, issueDateUtcValue := issueDateUtc,
       expirationUtcHasValue := true, expirationUtcValue := expirationUtc)
  }

  /** The (name, isPersistent, timeout) constructor. Both clocks are read by the source and are
      parameters here, and so is FormsAuthentication.FormsCookiePath. None where AddMinutes throws. */
  function CreateWithTimeout(name: NetString, isPersistent: bool, timeout: Int32,
                             utcNow: DateTime, localNow: DateTime, formsCookiePath: NetString)
    : (r: Option<FormsAuthenticationTicket>)
    ensures r.Some? <==> AddMinutes(utcNow, timeout).Some? && AddMinutes(localNow, timeout).Some?
    ensures r.Some? ==>
      var t := r.value;
      t.version == 2 && t.name == name && t.isPersistent == isPersistent &&
      t.userData == [] && t.cookiePath == formsCookiePath &&
      t.issueDate == localNow && t.expiration - t.issueDate == timeout * TicksPerMinute &&
      forall zone: TimeZone ::
        t.IssueDateUtc(zone) == utcNow &&
        t.ExpirationUtc(zone) - t.IssueDateUtc(zone) == timeout * TicksPerMinute
  {
    var expirationUtc :- AddMinutes(utcNow, timeout);
    var expiration :- AddMinutes(localNow, timeout);
    Some(FormsAuthenticationTicket(2, name, expiration, localNow, isPersistent, [], formsCookiePath,
                                   true, expirationUtc, true, utcNow))
  }

  /** Expired is monotone in the current instant: once expired, a ticket stays expired. */
  lemma ExpiredMonotone(t: FormsAuthenticationTicket, zone: TimeZone, earlier: DateTime, later: DateTime)
    requires earlier <= later
    ensures t.Expired(zone, earlier) ==> t.Expired(zone, later)
    ensures !t.Expired(zone, later) ==> !t.Expired(zone, earlier)
  {
  }

  /** For a ticket built by FromUtc, Expired depends only on the pinned expiration instant,
      whatever the time zone. */
  lemma FromUtcExpired(zone: TimeZone, other: TimeZone, version: Int32, name: NetString,
                       issueDateUtc: DateTime, expirationUtc: DateTime, isPersistent: bool,
                       userData: NetString, cookiePath: NetString, utcNow: DateTime)
    ensures var t := FromUtc(zone, version, name, issueDateUtc, expirationUtc, isPersistent, userData, cookiePath);
            t.Expired(other, utcNow) <==> expirationUtc < utcNow
  {
  }
}
