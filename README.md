# UMDM account policy, modelled in Dafny

This project models the policy attached to the UMDM user account (`accounts/models.py`).
The account extends the web framework's user entity with authentication metadata:
- an auth mode: LOCAL, AD or LOCAL_OR_AD;
- an `ad_enabled` fast-filter flag;
- a directory identifier;
- the last authentication source;
- three password-lifecycle fields: forced change, last change time, never expires.

Three rules work on these fields, and the model proves properties of each:

- **Password expiry.** `is_password_expired` says whether a local password has aged out.
  `AuthPolicy.PasswordExpired` is the decision over plain values.
  `AuthPolicy.PasswordExpiry` is a clock-free partner: the deadline a password lives until (never, already past, or a time).
  Monotonicity in time and the witness moments of the existence lemmas are derived from that view.
  The lemmas prove the guard order, the strict threshold, monotonicity in time, and that a password changed at `now` is still valid at `now` when the maximum age is not negative.
  Two more lemmas characterise which accounts are ever expired and which are ever valid.
- **Validation.** `clean` couples `ad_enabled` with `auth_mode`.
  `AuthPolicy.CheckAuthMode` accepts a pair iff `ad_enabled <==> auth_mode != LOCAL`, and every rejection is keyed to the field `auth_mode`.
  `ExactlyThreeAccepted` proves that three of the six raw pairs pass: (true, AD), (true, LOCAL_OR_AD) and (false, LOCAL).
- **Password change.** `set_password` records a change.
  `Accounts.User` is a class holding the model's fields.
  Its method `SetPassword` sets the change time to `now` and clears the forced-change flag.
  It leaves every other field alone and keeps the validation outcome unchanged.
  At the instant `now` of the change the password is not expired for any maximum age that is not negative.
  It stays valid at every later reading of the clock up to `now` plus the maximum age.

Modelling decisions:
- Timestamps are integers counting seconds, so `timedelta(days=d)` is `d * SecondsPerDay` with `SecondsPerDay = 86400`.
- The current time is a parameter `now` of `IsPasswordExpired` and `SetPassword`.
- The setting `PASSWORD_MAX_AGE_DAYS` is a parameter `maxAgeSetting: Option<int>`. `None` means the setting is absent, and the default of 90 days then applies.
- Nullable fields are `Option` values.
- The two validation messages are kept verbatim in `AuthPolicy.Message`, and every rejection carries its message, as the source's `{"auth_mode": message}` does.

## Model

| member | source | states |
|---|---|---|
| `AuthPolicy.PasswordExpired` | accounts/models.py:68-84 | A password is expired at `now` exactly when `now` lies past its clock-free expiry: never for non-LOCAL or never-expiring accounts, always when no change was recorded, otherwise strictly after change time plus maximum age |
| `AuthPolicy.PasswordExpiry` | accounts/models.py:72-82 | The clock-free expiry: never for non-LOCAL or never-expiring accounts, already past exactly for an ageing LOCAL account with no recorded change, otherwise a deadline that is the change time plus the maximum age |
| `AuthPolicy.PastExpiryStaysPast` | accounts/models.py:84 | Once `now` is past an expiry, every later time is past it too |
| `AuthPolicy.NonLocalNeverExpires` | accounts/models.py:72-73 | Any auth mode other than LOCAL gives "not expired", whatever the other fields and the clock hold |
| `AuthPolicy.NeverExpiresFlagWins` | accounts/models.py:75-76 | A LOCAL account with the never-expires flag is not expired, even with an unset or arbitrarily old change time |
| `AuthPolicy.UnsetChangeTimeExpired` | accounts/models.py:78-79 | A LOCAL account without the flag and with no recorded change is expired at every time |
| `AuthPolicy.ExpiredIffPastMaxAge` | accounts/models.py:81-84 | With a recorded change, expired iff `now > changed_at + max_age_days` days |
| `AuthPolicy.NotExpiredAtThreshold` | accounts/models.py:84 | The comparison is strict: not expired exactly at the threshold, expired one second later |
| `AuthPolicy.ExpiryMonotone` | accounts/models.py:82-84 | Once expired, the password stays expired at every later time |
| `AuthPolicy.FreshPasswordNotExpired` | accounts/models.py:82-84 | A password changed at `now` is not expired at `now` when the maximum age is not negative |
| `AuthPolicy.FreshPasswordValidWindow` | accounts/models.py:82-84 | A password changed at time `t` is not expired at any time from `t` up to and including `t` plus the maximum age |
| `AuthPolicy.EventuallyExpiredIffAgeing` | accounts/models.py:72-84 | Some moment makes the password expired iff the account is LOCAL and not exempt from ageing, so directory and never-expiring accounts are never forced to change |
| `AuthPolicy.SometimesValidIffChangeRecorded` | accounts/models.py:72-84 | Some moment finds the password valid unless the account is LOCAL, subject to ageing and has no recorded change, which is expired from the start (the state of an account just switched from AD to LOCAL) |
| `AuthPolicy.CheckAuthMode` | accounts/models.py:89-96 | Accepts iff `ad_enabled <==> auth_mode != LOCAL`; every rejection names the field `auth_mode`; the violation is "AD enabled with LOCAL" exactly when AD is enabled; the error carries the message the source raises for that violation |
| `AuthPolicy.MessagesIdentifyViolation` | accounts/models.py:89-96 | The messages raised at the two rejections differ, so a message identifies the rule broken |
| `AuthPolicy.RawCombinations` | accounts/models.py:24-32 | The two stored fields give six raw (ad_enabled, auth_mode) pairs |
| `AuthPolicy.RawCombinationsComplete` | accounts/models.py:11-14 | Every pair of a boolean and one of the three auth modes is among those six |
| `AuthPolicy.ExactlyThreeAccepted` | accounts/models.py:89-96 | Exactly three raw pairs pass validation: (true, AD), (true, LOCAL_OR_AD) and (false, LOCAL) |
| `AuthPolicy.DefaultCombinationAccepted` | accounts/models.py:24-32 | The default pair (AD disabled, mode LOCAL) passes validation |
| `Accounts.User.constructor` | accounts/models.py:24-66 | A new account has mode LOCAL, AD disabled, no identifier, no last source, no forced change, no change time, and ageing on; it passes validation |
| `Accounts.User.IsPasswordExpired` | accounts/models.py:68-84 | On the account's own fields: not expired when the mode is not LOCAL or the never-expires flag is set; expired when no change is recorded; otherwise expired iff `now` is past the change time plus the configured maximum age, or 90 days when none is configured |
| `Accounts.User.Clean` | accounts/models.py:86-96 | On the account's own fields: passes iff AD is enabled exactly when the mode is not LOCAL; a failure names `auth_mode`, reports "AD enabled with LOCAL" exactly when AD is enabled, and carries the source's message for the broken rule |
| `Accounts.User.SetPassword` | accounts/models.py:98-101 | Afterwards the change time is `now` and no forced change is pending, whatever they were; mode, AD flag, identifier, last source and never-expires are unchanged; validation gives the same outcome; the password is not expired at `now` for any maximum age that is not negative |

## Left out

- Password hashing: `super().set_password` (accounts/models.py:99) belongs to the framework's user entity. `SetPassword` takes the raw password but does not model the stored credential.
- Inherited validation: `super().clean()` (accounts/models.py:87) belongs to the framework. `User.Clean` models only the coupling check that follows it.
- `__str__` (accounts/models.py:103-104) only returns the inherited username, and the inherited identity fields are not modelled.
- `updated_at` (accounts/models.py:50) is refreshed by the framework on save; nothing in this code reads or writes it.
- Django field metadata (`max_length`, `db_index`, `blank`/`null`, `help_text`) is enforced by the framework's field validation. Only the field types and defaults are kept.
- The clock (`timezone.now()`) and the settings lookup are parameters, not global state.
- `auth_mode` values outside the three choices are not modelled. The database column is free text, and only the framework's field validation rejects other strings, so `AuthMode` has exactly three values.
- Python's datetime range is not modelled. Timestamps are unbounded integers, so the `OverflowError` raised when the change time plus the maximum age leaves the year range 1..9999 does not arise.
- The other faults of building `timedelta(days=max_age_days)` are not modelled either: the `OverflowError` for more than 999999999 days in absolute value, and the `TypeError` for a setting that is not a number. The setting is an unbounded integer.
- Time zones are not modelled. Timestamps are plain integer seconds, so comparing a naive with an aware datetime, which raises `TypeError` at accounts/models.py:84, cannot arise.
- Fractional day counts are not modelled. The maximum age is an integer number of days, and time resolution is one second instead of one microsecond.
- Concurrent writes to the account record are the storage layer's concern and are not modelled.
- The admin registration (accounts/admin.py) is declarative UI configuration with no logic.
