/**
 * The UMDM user account: the fields this application adds to the framework's
 * user entity, their defaults, and the three rules attached to them.
 */
module Accounts {
  import opened Wrappers
  import opened AuthPolicy

  class User {
    var authMode: AuthMode
    /** Fast filter flag for directory login, stored apart from `authMode`. */
    var adEnabled: bool
    /** Directory identifier, as a UPN (user@domain) or DOMAIN\user. */
    var adIdentifier: Option<string>
    /** Informational; written by the authentication backend only. */
    var lastAuthSource: Option<string>
    var mustChangePassword: bool
    var passwordChangedAt: Option<int>
    var passwordNeverExpires: bool

    /** A freshly provisioned account, with every field at its default. */
    constructor ()
      ensures authMode == Local && !adEnabled
      ensures adIdentifier == None && lastAuthSource == None
      ensures !mustChangePassword && passwordChangedAt == None && !passwordNeverExpires
      ensures Clean() == Pass
    {
      authMode := Local;
      adEnabled := false;
      adIdentifier := None;
      lastAuthSource := None;
      mustChangePassword := false;
      passwordChangedAt := None;
      passwordNeverExpires := false;
    }

    /**
     * Whether the local password has expired at time `now`, given the configured
     * maximum age in days (`maxAgeSetting`, None when the setting is absent).
     */
    function IsPasswordExpired(now: int, maxAgeSetting: Option<int>): (expired: bool)
      reads this
      ensures authMode != Local ==> !expired
      ensures authMode == Local && passwordNeverExpires ==> !expired
      ensures authMode == Local && !passwordNeverExpires && passwordChangedAt == None ==> expired
      ensures authMode == Local && !passwordNeverExpires && passwordChangedAt.Some? ==>
                (expired <==> now > passwordChangedAt.value
                                    + maxAgeSetting.GetOr(DefaultPasswordMaxAgeDays) * SecondsPerDay)
    {
      PasswordExpired(authMode, passwordNeverExpires, passwordChangedAt,
                      maxAgeSetting.GetOr(DefaultPasswordMaxAgeDays), now)
    }

    /** Validation of the (adEnabled, authMode) coupling. */
    function Clean(): (r: Outcome<ValidationError>)
      reads this
      ensures r.Pass? <==> (adEnabled <==> authMode != Local)
      ensures r.Fail? ==> r.error.field == AuthModeField
      ensures r.Fail? ==> (r.error.violation == AdEnabledWithLocalMode <==> adEnabled)
      ensures r.Fail? ==> r.error.message == Message(r.error.violation)
    {
      CheckAuthMode(adEnabled, authMode)
    }

    /**
     * Records a password change at time `now`: the change time is set and the
     * forced-change flag cleared. Hashing `rawPassword` into the stored
     * credential is the framework's and is not part of this model.
     */
    method SetPassword(rawPassword: string, now: int)
      modifies this
      ensures passwordChangedAt == Some(now) && !mustChangePassword
      ensures authMode == old(authMode) && adEnabled == old(adEnabled)
      ensures adIdentifier == old(adIdentifier) && lastAuthSource == old(lastAuthSource)
      ensures passwordNeverExpires == old(passwordNeverExpires)
      ensures Clean() == old(Clean())
      ensures forall s: Option<int> :: s.GetOr(DefaultPasswordMaxAgeDays) >= 0 ==> !IsPasswordExpired(now, s)
    {
      passwordChangedAt := Some(now);
      mustChangePassword := false;
    }
  }
}
