/** The database behind app.py's handlers, as one object holding the `User`
    and `PasswordResetToken` tables. Each handler that writes is a method;
    the request's form fields, the clock, the random draw and the mail
    result are its parameters. */
module Store {
  import opened Users
  import opened Tokens
  import opened ResetCodes
  import opened Roles
  import opened Accounts
  import opened PasswordReset

  /** What every handler keeps true of the two tables: primary keys are distinct
      and below the next key to hand out, every reset row belongs to a stored user
      and carries a six-digit code, and no user holds two reset rows. */
  ghost predicate StoreInvariant(users: seq<User>, tokens: seq<ResetToken>, nextId: UserId)
  {
    && DistinctIds(users)
    && (forall k :: 0 <= k < |users| ==> users[k].id < nextId)
    && (forall t :: t in tokens ==> HasId(users, t.userId) && IsResetCode(t.code))
    && OneTokenPerUser(tokens)
  }

  datatype RegisterOutcome = Rejected(taken: Field) | Registered(id: UserId)

  /** The `edit_profile` POST: no session, a session naming no stored user
      (the handler fails before writing), or saved with the redirect chosen. */
  datatype EditOutcome = EditNotLoggedIn | EditNoSuchUser | ProfileSaved(redirect: Option<Page>)

  /** The `request_password_reset` POST: code mailed (redirect to verify_code),
      mail failed (error shown, code kept), or the generic notice for an unknown email. */
  datatype ResetRequestOutcome = CodeMailed(email: string) | MailFailed | NoticeIfRegistered

  /** The `reset_password_code` POST. */
  datatype ResetOutcome = LinkInvalidOrExpired | EmptyPassword | PasswordUpdated(userId: UserId)

  class AppStore {
    var users: seq<User>
    var tokens: seq<ResetToken>
    /** The key the next inserted user receives. */
    var nextId: UserId

    ghost predicate Valid()
      reads this
    {
      StoreInvariant(users, tokens, nextId)
    }

    /** `db.create_all()` on an empty database. */
    constructor ()
      ensures Valid()
      ensures users == [] && tokens == [] && nextId == 1
    {
      users, tokens, nextId := [], [], 1;
    }

    /** `create_default_admin`. */
    method CreateDefaultAdmin()
      requires Valid()
      modifies this
      ensures Valid()
      ensures users == WithDefaultAdmin(old(users), old(nextId))
      ensures nextId == if |users| == |old(users)| then old(nextId) else old(nextId) + 1
      ensures tokens == old(tokens)
    {
      var adminUser := FindUser(users, Documento, AdminDocumento);
      if adminUser.None? {
        InsertKeepsInvariant(users, tokens, nextId, DefaultAdmin(nextId));
        users := users + [DefaultAdmin(nextId)];
        nextId := nextId + 1;
      }
    }

    /** The `register` POST. */
    method Register(username: string, email: string, documento: string, password: string, role: string)
      returns (r: RegisterOutcome)
      requires Valid()
      modifies this
      ensures Valid()
      ensures tokens == old(tokens)
      ensures RegisterCheck(old(users), username, email, documento).Some? ==>
        && r == Rejected(RegisterCheck(old(users), username, email, documento).value)
        && users == old(users) && nextId == old(nextId)
      ensures RegisterCheck(old(users), username, email, documento).None? ==>
        && r == Registered(old(nextId))
        && users == old(users) + [User(old(nextId), username, email, documento, Hash(password), role)]
        && nextId == old(nextId) + 1
    {
      var taken := RegisterCheck(users, username, email, documento);
      if taken.Some? {
        r := Rejected(taken.value);
      } else {
        var newUser := User(nextId, username, email, documento, Hash(password), role);
        InsertKeepsInvariant(users, tokens, nextId, newUser);
        users := users + [newUser];
        r := Registered(nextId);
        nextId := nextId + 1;
      }
    }

    /** The `edit_profile` POST. */
    method EditProfile(session: Option<UserId>, username: string, email: string, newPassword: string)
      returns (r: EditOutcome)
      requires Valid()
      modifies this
      ensures Valid()
      ensures tokens == old(tokens) && nextId == old(nextId)
      ensures session.None? ==> r == EditNotLoggedIn && users == old(users)
      ensures session.Some? && !HasId(old(users), session.value) ==> r == EditNoSuchUser && users == old(users)
      ensures session.Some? && HasId(old(users), session.value) ==>
        var k := UserById(old(users), session.value).value;
        && users == old(users)[k := EditedUser(old(users)[k], username, email, newPassword)]
        && r == ProfileSaved(ProfileRedirect(old(users)[k].role))
    {
      if session.None? {
        return EditNotLoggedIn;
      }
      var found := UserById(users, session.value);
      if found.None? {
        return EditNoSuchUser;
      }
      var k := found.value;
      var user := EditedUser(users[k], username, email, newPassword);
      ReplaceKeepsInvariant(users, tokens, nextId, k, user);
      users := users[k := user];
      r := ProfileSaved(ProfileRedirect(user.role));
    }

    /** The `request_password_reset` POST. `draw` is the
        value `randint(100000, 999999)` returned, `now` the clock, and
        `mailDelivered` whether `mail.send` returned without raising. */
    method RequestPasswordReset(email: string, draw: nat, now: int, mailDelivered: bool)
      returns (r: ResetRequestOutcome)
      requires Valid()
      requires 100000 <= draw <= 999999
      modifies this
      ensures Valid()
      ensures users == old(users) && nextId == old(nextId)
      ensures !Taken(old(users), Email, email) ==> r == NoticeIfRegistered && tokens == old(tokens)
      ensures Taken(old(users), Email, email) ==>
        var id := old(users)[FindUser(old(users), Email, email).value].id;
        && tokens == Issue(old(tokens), id, DecimalString(draw), now)
        && OwnedBy(tokens, id) == [ResetToken(id, DecimalString(draw), now + ResetWindow)]
        && IsResetCode(DecimalString(draw))
        && (forall other :: other != id ==> OwnedBy(tokens, other) == OwnedBy(old(tokens), other))
        && r == (if mailDelivered then CodeMailed(email) else MailFailed)
    {
      var found := FindUser(users, Email, email);
      if found.None? {
        return NoticeIfRegistered;
      }
      var id := users[found.value].id;
      forall other: UserId
        ensures OwnedBy(Issue(tokens, id, DecimalString(draw), now), id) == [ResetToken(id, DecimalString(draw), now + ResetWindow)]
        ensures other != id ==> OwnedBy(Issue(tokens, id, DecimalString(draw), now), other) == OwnedBy(tokens, other)
      {
        IssueSupersedes(tokens, id, DecimalString(draw), now, other);
      }
      DrawnCodeShape(draw);
      IssueKeepsInvariant(users, tokens, nextId, found.value, draw, now);
      tokens := WithoutOwner(tokens, id);
      var code := DecimalString(draw);
      tokens := tokens + [ResetToken(id, code, now + ResetWindow)];
      // The row is committed before the mail is attempted; a failed send leaves it.
      if mailDelivered {
        r := CodeMailed(email);
      } else {
        r := MailFailed;
      }
    }

    /** The `reset_password_code` POST: the code is looked
        up on its own, without the account that verified it. */
    method ResetPasswordCode(code: string, newPassword: string, now: int) returns (r: ResetOutcome)
      requires Valid()
      modifies this
      ensures Valid()
      ensures nextId == old(nextId)
      ensures LookupResetToken(old(tokens), code, now).None? ==>
        r == LinkInvalidOrExpired && users == old(users) && tokens == old(tokens)
      ensures LookupResetToken(old(tokens), code, now).Some? && newPassword == "" ==>
        r == EmptyPassword && users == old(users) && tokens == old(tokens)
      ensures LookupResetToken(old(tokens), code, now).Some? && newPassword != "" ==>
        var i := LookupResetToken(old(tokens), code, now).value;
        var id := old(tokens)[i].userId;
        && r == PasswordUpdated(id)
        && users == SetPassword(old(users), id, Hash(newPassword))
        && tokens == RemoveAt(old(tokens), i)
    {
      var found := LookupResetToken(tokens, code, now);
      if found.None? {
        return LinkInvalidOrExpired;
      }
      var i := found.value;
      if newPassword == "" {
        return EmptyPassword;
      }
      var id := tokens[i].userId;
      assert tokens[i] in tokens;
      var k := UserById(users, id).value;
      SetPasswordAt(users, k, Hash(newPassword));
      ConsumeKeepsInvariant(users, tokens, nextId, i, Hash(newPassword));
      users := users[k := users[k].(password := Hash(newPassword))];
      tokens := RemoveAt(tokens, i);
      r := PasswordUpdated(id);
    }
  }

  /** After a reset consumed its row, the owner holds no row, so `verify_code`
      answers "incorrect" to that account's email for every code. */
  lemma ConsumedOwnerVerifiesNothing(users: seq<User>, tokens: seq<ResetToken>, nextId: UserId,
                                     i: nat, k: nat, h: Digest, code: string, now: int)
    requires StoreInvariant(users, tokens, nextId) && i < |tokens|
    requires k < |users| && users[k].id == tokens[i].userId && FirstWith(users, Email, users[k].email, k)
    ensures VerifyCode(SetPassword(users, tokens[i].userId, h), RemoveAt(tokens, i), users[k].email, code, now)
         == IncorrectCode
  {
    var s := SetPassword(users, tokens[i].userId, h);
    var r := RemoveAt(tokens, i);
    RemoveOnlyRow(tokens, i);
    assert s[k].id == users[k].id && s[k].email == users[k].email;
    forall j | 0 <= j < k
      ensures FieldOf(s[j], Email) != users[k].email
    {
      assert s[j].email == users[j].email;
    }
    assert FirstWith(s, Email, users[k].email, k);
    assert forall j :: 0 <= j < |r| ==> !Matches(r[j], ByOwnerAndCode(s[k].id, code));
  }

  /** A consumed row cannot be replayed against its own account: whatever row a
      later lookup of the same code finds belongs to some other user. */
  lemma ReplayNeverResetsSameUser(users: seq<User>, tokens: seq<ResetToken>, nextId: UserId, i: nat, later: int)
    requires StoreInvariant(users, tokens, nextId) && i < |tokens|
    ensures var r := RemoveAt(tokens, i);
            var found := LookupResetToken(r, tokens[i].code, later);
            found.Some? ==> r[found.value].userId != tokens[i].userId
  {
    RemoveOnlyRow(tokens, i);
  }

  /** Appending a user with a fresh key keeps the invariant. */
  lemma InsertKeepsInvariant(users: seq<User>, tokens: seq<ResetToken>, nextId: UserId, u: User)
    requires StoreInvariant(users, tokens, nextId) && u.id == nextId
    ensures StoreInvariant(users + [u], tokens, nextId + 1)
  {
    var s := users + [u];
    forall t | t in tokens
      ensures HasId(s, t.userId)
    {
      var k :| 0 <= k < |users| && users[k].id == t.userId;
      assert s[k] == users[k];
    }
  }

  /** Replacing a user by a row with the same key keeps the invariant. */
  lemma ReplaceKeepsInvariant(users: seq<User>, tokens: seq<ResetToken>, nextId: UserId, k: nat, u: User)
    requires StoreInvariant(users, tokens, nextId) && k < |users| && u.id == users[k].id
    ensures StoreInvariant(users[k := u], tokens, nextId)
  {
    var s := users[k := u];
    forall t | t in tokens
      ensures HasId(s, t.userId)
    {
      var j :| 0 <= j < |users| && users[j].id == t.userId;
      assert s[j].id == users[j].id;
    }
  }

  /** Issuing a code to a stored user keeps the invariant. */
  lemma IssueKeepsInvariant(users: seq<User>, tokens: seq<ResetToken>, nextId: UserId, k: nat, draw: nat, now: int)
    requires StoreInvariant(users, tokens, nextId) && k < |users|
    requires 100000 <= draw <= 999999
    ensures StoreInvariant(users, Issue(tokens, users[k].id, DecimalString(draw), now), nextId)
  {
    DrawnCodeShape(draw);
    IssueKeepsOneTokenPerUser(tokens, users[k].id, DecimalString(draw), now);
  }

  /** Storing a new hash for a row's owner and deleting that row keeps the invariant. */
  lemma ConsumeKeepsInvariant(users: seq<User>, tokens: seq<ResetToken>, nextId: UserId, i: nat, h: Digest)
    requires StoreInvariant(users, tokens, nextId) && i < |tokens|
    ensures StoreInvariant(SetPassword(users, tokens[i].userId, h), RemoveAt(tokens, i), nextId)
  {
    var s := SetPassword(users, tokens[i].userId, h);
    var r := RemoveAt(tokens, i);
    assert forall k :: 0 <= k < |s| ==> s[k].id == users[k].id;
    forall t | t in r
      ensures HasId(s, t.userId) && IsResetCode(t.code)
    {
      assert t in multiset(r);
      assert t in tokens;
      var j :| 0 <= j < |users| && users[j].id == t.userId;
      assert s[j].id == users[j].id;
    }
    forall id: UserId
      ensures |OwnedBy(r, id)| <= 1
    {
      RemoveAtOwnedBy(tokens, i, id);
    }
  }
}
