# Level Up: account and password-reset store

A Dafny model of the state behind the request handlers of Level Up, a Flask
application for sharing games and donating to their creators. The model covers two
database tables. The `User` table holds the key, username, email, documento,
password hash and free-text role. The `PasswordResetToken` table holds the owner,
a six-digit code and an expiry. The handlers that write these tables are modelled
as methods of the class `Store.AppStore`:

- `create_default_admin`;
- `register`;
- `edit_profile`;
- `request_password_reset`;
- `reset_password_code`.

The read-only handlers are modelled as functions: `verify_code`, `login`, `home`,
and the redirect chosen from the role string.

Everything outside the tables is passed in as a parameter:

- the request's form fields;
- the session's `user_id`;
- the clock, as integer seconds;
- the value `randint(100000, 999999)` drew;
- whether `mail.send` raised.

Password hashing is replaced by an exact digest (`Users.Hash`). Its check accepts
exactly the password the digest was made from. Tables are sequences in insertion
order, with new rows appended at the end. `filter_by(...).first()` is modelled as
returning the earliest matching row in that order; the queries carry no `ORDER BY`,
so this is an assumption about the database (see "Left out").

Files and modules:

- `users.dfy` (`Users`): the user table and its lookups.
- `codes.dfy` (`ResetCodes`): the decimal text of a reset code.
- `tokens.dfy` (`Tokens`): the reset-token table.
- `roles.dfy` (`Roles`): login and the role dispatch.
- `accounts.dfy` (`Accounts`): registration, the default administrator and profile edits.
- `password_reset.dfy` (`PasswordReset`): `verify_code` and the properties of the reset lifecycle.
- `store.dfy` (`Store`): the store invariant and the class with the writing handlers.

The model follows the code on these points, which are easy to misread:

- A reset code is `str(randint(100000, 999999))`. It has six digits and never
  starts with `0`. It is not a zero-padded value from 000000 to 999999.
- A token counts as expired only when `expiration < now`, so at `now == expiration`
  it is still accepted by both `verify_code` and `reset_password_code`.
- `verify_code` tells an unknown email apart from a wrong code.
- `reset_password_code` finds the row by its code alone. When two accounts hold the
  same code, the row `.first()` returns wins, even if the other account is the one that
  verified the code (`PasswordReset.ResetByCodeIgnoresOwner`). Under the insertion-order
  assumption above, that is the earlier row. Deleting that row does not retire the code:
  replaying it then finds the other account's row (`PasswordReset.ReplayReachesOtherHolder`).
- `edit_profile` checks no uniqueness. For this reason, unique usernames, emails and
  documentos are proved to be preserved by registration, and by the bootstrap when the
  username `edi` and the email `admin@levelup.com` are free (the bootstrap checks only the
  documento), but they are not part of the store invariant (`Accounts.EditCanDuplicateEmail`).

## Model

| member | source | states |
|---|---|---|
| `Users.CheckPasswordExact` | app.py:89 | `check_password_hash` accepts a hash made by `generate_password_hash` exactly for the password it was made from |
| `Users.SetPassword` | app.py:346 | `user.password = h` changes the password of the rows with that key to `h`, leaves every other column and every other row as it was, and keeps the table's length |
| `Users.FindUser` | app.py:61-63 | `filter_by(column=v).first()` returns the earliest row with `v` in that column, and returns nothing exactly when no row has it |
| `Users.UserById` | app.py:42 | `User.query.get(id)` returns a row with that key, and returns nothing exactly when no row has it |
| `ResetCodes.DecimalString` | app.py:279 | `str(n)` consists only of decimal digits, and starts with `0` only when n is 0 |
| `ResetCodes.DecimalRoundTrip` | app.py:279 | reading the decimal text of n back gives n |
| `ResetCodes.DecimalInjective` | app.py:279 | different draws produce different code strings |
| `ResetCodes.DrawnCodeShape` | app.py:279 | every draw of `randint(100000, 999999)` prints as six digits whose first digit is not 0 |
| `Tokens.WithoutOwner` | app.py:276 | deleting a user's rows keeps exactly the rows of the other owners |
| `Tokens.WithoutOwnerConcat` | app.py:276 | the deletion works row by row, so the surviving rows keep their relative order |
| `Tokens.WithoutOwnerKeepsFirstMatch` | app.py:276 | a surviving row that was the first match for a filter is still the first match after the deletion |
| `Tokens.IssueShape` | app.py:276-283 | after a reset request the new row is last, no earlier row belongs to that user, and the rows are exactly the new one and the other users' old rows |
| `Tokens.IssueSupersedes` | app.py:275-283 | after a reset request the user owns exactly one row, with the new code and expiry `now + 15 min`; every other user's rows are unchanged |
| `Tokens.IssueKeepsOneTokenPerUser` | app.py:276-283 | issuing a code keeps at most one reset row per user |
| `Tokens.FindToken` | app.py:314 | `filter_by(...).first()` on the token table returns the earliest matching row, and returns nothing exactly when no row matches |
| `Tokens.RemoveAt` | app.py:348 | deleting the token removes exactly that one row from the table; the rows before it keep their positions and the rows after it move up by one, in order |
| `Tokens.ExpiryBoundary` | app.py:320 | `expiration < now`: a token is still live at its expiry instant, expired one second later, and stays expired as the clock advances |
| `Tokens.LookupResetToken` | app.py:331-335 | the reset link is accepted exactly when some row has the code and the earliest such row is not expired (`expiration < now` counts as expired) |
| `Tokens.ConsumedCodeIsGone` | app.py:331-349 | once the row holding a code has been consumed, replaying that code is rejected, provided no other row holds the same code |
| `Tokens.RemoveOnlyRow` | app.py:348 | deleting a user's only reset row leaves that user with no row |
| `PasswordReset.ReplayReachesOtherHolder` | app.py:331-348 | the proviso above is the exact limit: when two accounts hold the same code, replaying it after the first reset finds the other account's row |
| `Roles.RequiredRole` | app.py:174 | each landing page's guard requires one of the three known roles |
| `Roles.RoleRedirectInverse` | app.py:91-96 | the redirect chain sends exactly the role a page's guard requires to that page |
| `Roles.PageGuard` | app.py:169-176 | a landing page's guard sends a request without a session to login; it lets the request through only for a stored user of the page's role, and, with distinct keys, always for one |
| `Roles.GuardGrantsOnePage` | app.py:167-206 | no session is let through by two different landing pages |
| `Roles.RoleRedirect` | app.py:91-96 | the redirect is absent exactly for a role other than Usuario, Creador or Administrador; otherwise it leads to the page whose guard requires that role |
| `Roles.ProfileRedirect` | app.py:262-265 | after a profile edit only Usuario and Creador are redirected, each to their own page; Administrador gets no redirect |
| `Roles.Home` | app.py:39-50 | `home` redirects exactly when the session names a stored user with a known role, and the page it chooses admits that user |
| `Roles.Login` | app.py:87-98 | the session is set exactly when the earliest user with that username exists and the password checks; the session then holds that user's key, and the redirect follows the user's role |
| `Roles.LoginLandsOnAdmittingPage` | app.py:89-96 | when login chooses a redirect, that page's role guard admits the new session |
| `Accounts.RegisterCheck` | app.py:61-70 | registration is rejected for a taken username first, then a taken email, then a taken documento, and passes only when none of the three is taken |
| `Accounts.RegisterKeepsUnique` | app.py:61-75 | a registration that passes the check keeps username, email and documento unique across users |
| `Accounts.RegisterThenLogin` | app.py:72-77 | a newly registered user can log in with the registration password and is sent to the page of the registered role |
| `Accounts.DefaultAdmin` | app.py:27-28 | the bootstrapped row has username `edi`, email `admin@levelup.com`, documento 123456789 and role Administrador, and its hash accepts exactly the password `4512` |
| `Accounts.WithDefaultAdmin` | app.py:22-30 | after the bootstrap some user has documento 123456789; the administrator row is appended exactly when none had it before, and at most one row is added |
| `Accounts.DefaultAdminIdempotent` | app.py:25-30 | running the bootstrap a second time changes nothing |
| `Accounts.DefaultAdminKeepsUnique` | app.py:25-29 | the bootstrap keeps the three columns unique when the username `edi` and the email `admin@levelup.com` are free |
| `Accounts.DefaultAdminCanDuplicateUsername` | app.py:25-29 | the bootstrap checks only the documento, so a table that already has a user named `edi` ends up with two |
| `Accounts.DefaultAdminLogsIn` | app.py:27-28 | on an empty database the bootstrapped administrator logs in with `edi`/`4512` and is sent to the admin panel |
| `Accounts.EditedUser` | app.py:252-257 | a profile edit sets the username and email; the password is replaced only when the new one is non-empty; key, documento and role are kept |
| `Accounts.EditCanDuplicateEmail` | app.py:252-253 | a profile edit can give two users the same email |
| `PasswordReset.VerifyCode` | app.py:306-324 | classifies the submission as one of four outcomes: email not found exactly when no user has the email; incorrect exactly when no row matches that user and code; expired exactly when the earliest matching row has `expiration < now`; valid otherwise |
| `PasswordReset.IssueThenVerify` | app.py:281-324 | a freshly issued code verifies as valid up to and including its expiry instant, and as expired after it |
| `PasswordReset.ReissueRejectsOldCode` | app.py:276-283 | after a second reset request with a different draw, the first code verifies as incorrect |
| `PasswordReset.VerifiedCodeResetsSameUser` | app.py:314-331 | when only one row holds a code, a code accepted by `verify_code` makes `reset_password_code` find the verified account's row |
| `PasswordReset.ResetByCodeIgnoresOwner` | app.py:329-346 | two accounts can hold the same code; after the second account verifies it, the reset updates the first account's password |
| `PasswordReset.LoginAfterReset` | app.py:346 | after a reset the account logs in with the new password and no longer with any other password |
| `Store.ConsumedOwnerVerifiesNothing` | app.py:309-324 | after a reset consumed its row, `verify_code` answers "incorrect" for the owner's email and every code, since the owner holds no row any more |
| `Store.ReplayNeverResetsSameUser` | app.py:331-348 | after a reset consumed its row, a later lookup of the same code never finds a row of the same account, so a replay cannot update that account's password again |
| `Store.AppStore.constructor` | app.py:34-35 | the database starts with empty tables |
| `Store.AppStore.CreateDefaultAdmin` | app.py:22-30 | the user table becomes the bootstrap result; the token table is unchanged; the store invariant is kept |
| `Store.AppStore.Register` | app.py:52-79 | a rejected registration changes nothing and names the first taken column; otherwise exactly one user is appended, with a fresh key and the hashed password |
| `Store.AppStore.EditProfile` | app.py:244-267 | without a session, or with a session naming no stored user, nothing changes; otherwise only that user's row is replaced by the edited row, and the redirect follows the role |
| `Store.AppStore.RequestPasswordReset` | app.py:269-301 | for an unknown email nothing changes; otherwise the user's old rows are replaced by one row with a six-digit code expiring 15 minutes later, other users' rows are untouched, and a failed mail send leaves the new row in place |
| `Store.AppStore.ResetPasswordCode` | app.py:329-354 | an unknown or expired code changes nothing, and neither does an empty password; otherwise the owner's password becomes the hash of the new one and exactly that row is deleted |

## Left out

- Flask routing, template rendering, `flash` messages, `redirect`/`url_for` and session cookies are left out. The results are outcome datatypes instead. The session is an optional user key passed in, and `Roles.Login` returns the key it stores.
- The GET branches of the handlers only render pages and are not modelled.
- Mail sending (flask_mail) is left out. Its result is the `mailDelivered` flag, which does not affect the store.
- werkzeug's salted password hashing is not modelled. It is replaced by an exact digest whose check accepts exactly the hashed password. Salting, and with it the fact that two hashes of one password differ, is not modelled.
- `random.randint` is not modelled. The draw is a parameter constrained to 100000..999999.
- `datetime.utcnow()` is not modelled. The clock is an integer count of seconds, and microsecond resolution is not modelled.
- Missing form fields are not modelled. The model does not cover `request.form.get` returning None, nor `request.form[...]` raising.
- The game upload (file-system I/O), the donation flow (float parsing of the amount), the donation history, the per-role landing pages and the admin listing are not modelled. Beyond the role guards, modelled as `Roles.PageGuard`, they are plain queries or I/O.
- `static/script.js` is browser-side UI code and is not modelled.
- models.py is not part of this model. No column constraints are assumed beyond the primary key, so uniqueness of usernames, emails and documentos rests on the handlers' own checks.
- `filter_by(...).first()` has no `ORDER BY` in app.py, so SQL leaves the row it returns unspecified. The model assumes the earliest row in insertion order (lowest key). `Users.FindUser`, `Tokens.FindToken`, `Roles.Login`, `PasswordReset.VerifyCode`, `Tokens.LookupResetToken`, `Store.AppStore.RequestPasswordReset`, `Store.AppStore.ResetPasswordCode`, `PasswordReset.ResetByCodeIgnoresOwner` and `PasswordReset.ReplayReachesOtherHolder` rest on that assumption; it only matters when several rows match.
- String comparison in `filter_by(column=v)` is an SQL `=` whose meaning depends on the database's collation; the database configuration is not part of this model. The model assumes exact (binary) comparison, as SQLite does by default, so under a case-insensitive collation `EDI` would match `edi` where the model does not. `Users.FindUser`, `Accounts.RegisterCheck`, `Roles.Login`, `PasswordReset.VerifyCode`, `Tokens.FindToken` and `Tokens.LookupResetToken` rest on that assumption.
- Roles.Home: requires distinct user keys, which the primary key of the `User` table guarantees.
- Concurrent requests racing on the shared database are not modelled. Each handler is one atomic step. The two commits inside `request_password_reset` are treated as one step, since nothing observes the state between them.
