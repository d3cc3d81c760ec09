/**
 * The authentication-mode and password-lifecycle rules of a UMDM user account,
 * stated over plain values so that they can be reasoned about without an object.
 *
 * Timestamps are integers counting seconds; a day is `SecondsPerDay` of them.
 */
module AuthPolicy {
  import opened Wrappers

  /** Which credential paths an account may use. */
  datatype AuthMode = Local | Ad | LocalOrAd

  const SecondsPerDay: int := 86400

  /** Maximum password age used when the deployment configures none. */
  const DefaultPasswordMaxAgeDays: int := 90

  /** Name of the model field a validation error is reported against. */
  const AuthModeField: string := "auth_mode"

  // ---------------------------------------------------------------------------
  // Password expiry
  // ---------------------------------------------------------------------------

  /** When a password stops being valid, independently of the current time. */
  datatype Expiry =
    | NeverExpires              // not subject to local password ageing
    | AlreadyExpired            // no local password change was ever recorded
    | ExpiresAfter(deadline: int) // valid up to and including `deadline`

  /** The clock-free view of the policy: the deadline a password lives until. */
  function PasswordExpiry(mode: AuthMode, neverExpires: bool, changedAt: Option<int>,
                          maxAgeDays: int): (e: Expiry)
    ensures e.NeverExpires? <==> mode != Local || neverExpires
    ensures e.AlreadyExpired? <==> mode == Local && !neverExpires && changedAt.None?
    ensures e.ExpiresAfter? ==> changedAt == Some(e.deadline - maxAgeDays * SecondsPerDay)
  {
    if mode != Local || neverExpires then NeverExpires
    else match changedAt
      case None => AlreadyExpired
      case Some(t) => ExpiresAfter(t + maxAgeDays * SecondsPerDay)
  }

  /** True iff time `now` lies beyond the password's expiry. */
  predicate IsPastExpiry(e: Expiry, now: int) {
    match e
    case NeverExpires => false
    case AlreadyExpired => true
    case ExpiresAfter(deadline) => now > deadline
  }

  /** Being past an expiry is a property that time only makes true, never false. */
  lemma PastExpiryStaysPast(e: Expiry, now: int, later: int)
    requires now <= later && IsPastExpiry(e, now)
    ensures IsPastExpiry(e, later)
  {
  }

  /** A moment at which a password with expiry `e` is already expired. */
  function LateMoment(e: Expiry): int {
    match e
    case ExpiresAfter(deadline) => deadline + 1
    case _ => 0
  }

  /** A moment at which a password with expiry `e` is still valid. */
  function EarlyMoment(e: Expiry): int {
    match e
    case ExpiresAfter(deadline) => deadline
    case _ => 0
  }

  /**
   * The decision taken by `User.is_password_expired`: guard clauses on the
   * auth mode, the never-expires flag and an unset change time, then a strict
   * comparison of `now` with the change time plus the maximum age.
   */
  function PasswordExpired(mode: AuthMode, neverExpires: bool, changedAt: Option<int>,
                           maxAgeDays: int, now: int): (expired: bool)
    ensures expired <==> IsPastExpiry(PasswordExpiry(mode, neverExpires, changedAt, maxAgeDays), now)
  {
    if mode != Local then false
    else if neverExpires then false
    else if changedAt.None? then true
    else now > changedAt.value + maxAgeDays * SecondsPerDay
  }

  /** Directory-authenticated accounts never expire locally, whatever else they hold. */
  lemma NonLocalNeverExpires(mode: AuthMode, neverExpires: bool, changedAt: Option<int>,
                             maxAgeDays: int, now: int)
    requires mode != Local
    ensures !PasswordExpired(mode, neverExpires, changedAt, maxAgeDays, now)
  {
  }

  /** The never-expires flag wins even over an unset or arbitrarily old change time. */
  lemma NeverExpiresFlagWins(changedAt: Option<int>, maxAgeDays: int, now: int)
    ensures !PasswordExpired(Local, true, changedAt, maxAgeDays, now)
  {
  }

  /** A local account subject to ageing with no recorded change is expired at any time. */
  lemma UnsetChangeTimeExpired(maxAgeDays: int, now: int)
    ensures PasswordExpired(Local, false, None, maxAgeDays, now)
  {
  }

  /** With a recorded change, expiry is exactly "now is past change time plus max age". */
  lemma ExpiredIffPastMaxAge(changedAt: int, maxAgeDays: int, now: int)
    ensures PasswordExpired(Local, false, Some(changedAt), maxAgeDays, now)
            <==> now > changedAt + maxAgeDays * SecondsPerDay
  {
  }

  /** The comparison is strict: at exactly the threshold the password is still valid. */
  lemma NotExpiredAtThreshold(changedAt: int, maxAgeDays: int)
    ensures !PasswordExpired(Local, false, Some(changedAt), maxAgeDays,
                             changedAt + maxAgeDays * SecondsPerDay)
    ensures PasswordExpired(Local, false, Some(changedAt), maxAgeDays,
                            changedAt + maxAgeDays * SecondsPerDay + 1)
  {
  }

  /** Once expired, a password stays expired at every later time. */
  lemma ExpiryMonotone(mode: AuthMode, neverExpires: bool, changedAt: Option<int>,
                       maxAgeDays: int, now: int, later: int)
    requires now <= later
    requires PasswordExpired(mode, neverExpires, changedAt, maxAgeDays, now)
    ensures PasswordExpired(mode, neverExpires, changedAt, maxAgeDays, later)
  {
    PastExpiryStaysPast(PasswordExpiry(mode, neverExpires, changedAt, maxAgeDays), now, later);
  }

  /** A password changed at `now` is not expired at `now` when the maximum age is not negative. */
  lemma FreshPasswordNotExpired(mode: AuthMode, neverExpires: bool, maxAgeDays: int, now: int)
    requires maxAgeDays >= 0
    ensures !PasswordExpired(mode, neverExpires, Some(now), maxAgeDays, now)
  {
  }

  /**
   * A password changed at `changedAt` stays valid at every clock reading from the
   * change up to and including the change time plus the maximum age.
   */
  lemma FreshPasswordValidWindow(mode: AuthMode, neverExpires: bool, maxAgeDays: int,
                                 changedAt: int, now: int)
    requires changedAt <= now <= changedAt + maxAgeDays * SecondsPerDay
    ensures !PasswordExpired(mode, neverExpires, Some(changedAt), maxAgeDays, now)
  {
  }

  /**
   * Some moment exists at which the password is expired exactly when the account
   * is LOCAL and subject to ageing: only those accounts are ever forced to change.
   */
  lemma {:induction false} EventuallyExpiredIffAgeing(mode: AuthMode, neverExpires: bool,
                                                      changedAt: Option<int>, maxAgeDays: int)
    ensures (exists now :: PasswordExpired(mode, neverExpires, changedAt, maxAgeDays, now))
            <==> mode == Local && !neverExpires
  {
    if mode == Local && !neverExpires {
      var late := LateMoment(PasswordExpiry(mode, neverExpires, changedAt, maxAgeDays));
      assert PasswordExpired(mode, neverExpires, changedAt, maxAgeDays, late);
    }
  }

  /**
   * Some moment exists at which the password is still valid, unless the account
   * is LOCAL, subject to ageing and has no recorded change (as after a switch
   * from directory login to local login): that one is expired from the start.
   */
  lemma {:induction false} SometimesValidIffChangeRecorded(mode: AuthMode, neverExpires: bool,
                                                           changedAt: Option<int>, maxAgeDays: int)
    ensures (exists now :: !PasswordExpired(mode, neverExpires, changedAt, maxAgeDays, now))
            <==> !(mode == Local && !neverExpires && changedAt.None?)
  {
    if !(mode == Local && !neverExpires && changedAt.None?) {
      var early := EarlyMoment(PasswordExpiry(mode, neverExpires, changedAt, maxAgeDays));
      assert !PasswordExpired(mode, neverExpires, changedAt, maxAgeDays, early);
    }
  }

  // ---------------------------------------------------------------------------
  // Coupling of ad_enabled and auth_mode
  // ---------------------------------------------------------------------------

  /** Which half of the coupling rule a rejected account breaks. */
  datatype Violation =
    | AdEnabledWithLocalMode      // directory login switched on, but only local login allowed
    | AdDisabledWithDirectoryMode // directory login switched off, but a directory mode chosen

  /** A field-scoped validation error: the offending field, the rule broken and its message. */
  datatype ValidationError = ValidationError(field: string, violation: Violation, message: string)

  /** The human-readable message reported for each violation. */
  function Message(v: Violation): string {
    match v
    case AdEnabledWithLocalMode => "Gdy AD jest włączone, auth_mode nie może być LOCAL."
    case AdDisabledWithDirectoryMode => "Jeśli AD jest wyłączone, ustaw auth_mode=LOCAL."
  }

  /** The two rejections carry different messages, so the text tells which rule was broken. */
  lemma MessagesIdentifyViolation(v: Violation, w: Violation)
    ensures Message(v) == Message(w) <==> v == w
  {
  }

  /** The rejection for violation `v`, keyed to `auth_mode`. */
  function Reject(v: Violation): Outcome<ValidationError> {
    Fail(ValidationError(AuthModeField, v, Message(v)))
  }

  /**
   * The check `User.clean` adds on top of the inherited validation: with AD
   * enabled the mode must not be LOCAL, with AD disabled it must not be AD or
   * LOCAL_OR_AD. Either rejection is reported against `auth_mode`.
   */
  function CheckAuthMode(adEnabled: bool, mode: AuthMode): (r: Outcome<ValidationError>)
    ensures r.Pass? <==> (adEnabled <==> mode != Local)
    ensures r.Fail? ==> r.error.field == AuthModeField
    ensures r.Fail? ==> (r.error.violation == AdEnabledWithLocalMode <==> adEnabled)
    ensures r.Fail? ==> r.error.message == Message(r.error.violation)
  {
    if adEnabled then
      if mode == Local then Reject(AdEnabledWithLocalMode)
      else Pass
    else
      if mode == Ad || mode == LocalOrAd then Reject(AdDisabledWithDirectoryMode)
      else assert mode.Local?; Pass
  }

  /** Every raw (ad_enabled, auth_mode) pair the two stored fields can hold. */
  function RawCombinations(): (all: set<(bool, AuthMode)>)
    ensures |all| == 6
  {
    {(false, Local), (false, Ad), (false, LocalOrAd), (true, Local), (true, Ad), (true, LocalOrAd)}
  }

  /** The enumeration is complete: the stored fields can hold no other pair. */
  lemma RawCombinationsComplete(adEnabled: bool, mode: AuthMode)
    ensures (adEnabled, mode) in RawCombinations()
  {
  }

  /** The raw pairs that pass the coupling check. */
  function AcceptedCombinations(): set<(bool, AuthMode)> {
    set p | p in RawCombinations() && CheckAuthMode(p.0, p.1).Pass?
  }

  /** Of the six raw combinations exactly three are accepted, and these are they. */
  lemma ExactlyThreeAccepted()
    ensures AcceptedCombinations() == {(true, Ad), (true, LocalOrAd), (false, Local)}
    ensures |AcceptedCombinations()| == 3
  {
  }

  /** The default account (LOCAL mode, AD disabled) passes the coupling check. */
  lemma DefaultCombinationAccepted()
    ensures CheckAuthMode(false, Local) == Pass
  {
  }
}
