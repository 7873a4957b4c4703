/** The read-only step of the password-reset flow (`verify_code`) and the
    properties that tie issuing, verifying and consuming a code together. */
module PasswordReset {
  import opened Users
  import opened Tokens
  import opened ResetCodes
  import opened Roles

  /** The four answers of `verify_code` to a POST. `CodeValid` carries the code
      passed on to the reset page. */
  datatype VerifyOutcome = EmailNotFound | IncorrectCode | CodeExpired | CodeValid(code: string)

  /** `verify_code`: find the account by email, then the
      first row with that account and code, then compare its expiry with `now`. */
  function VerifyCode(users: seq<User>, tokens: seq<ResetToken>, email: string, code: string, now: int): (r: VerifyOutcome)
    ensures r.EmailNotFound? <==> !Taken(users, Email, email)
    ensures forall k :: FirstWith(users, Email, email, k) ==>
      && (r.IncorrectCode? <==>
            forall j :: 0 <= j < |tokens| ==> !Matches(tokens[j], ByOwnerAndCode(users[k].id, code)))
      && (r.CodeExpired? <==>
            exists i :: FirstMatch(tokens, ByOwnerAndCode(users[k].id, code), i) && Expired(tokens[i], now))
      && (r.CodeValid? <==>
            exists i :: FirstMatch(tokens, ByOwnerAndCode(users[k].id, code), i) && !Expired(tokens[i], now))
    ensures r.CodeValid? ==> r.code == code
  {
    match FindUser(users, Email, email)
    case None => EmailNotFound
    case Some(k) =>
      assert forall k' :: FirstWith(users, Email, email, k') ==> k' == k;
      var key := ByOwnerAndCode(users[k].id, code);
      match FindToken(tokens, key)
      case None => IncorrectCode
      case Some(i) =>
        assert forall i' :: FirstMatch(tokens, key, i') ==> i' == i;
        if Expired(tokens[i], now) then CodeExpired else CodeValid(tokens[i].code)
  }

  /** In the table after an issue, the new row is the only one of its owner, and it is last. */
  lemma IssuedRowIsFirstMatch(tokens: seq<ResetToken>, id: UserId, code: string, issuedAt: int)
    ensures FirstMatch(Issue(tokens, id, code, issuedAt), ByOwnerAndCode(id, code), |Issue(tokens, id, code, issuedAt)| - 1)
  {
  }

  /** A code just issued to the account with this email verifies as valid until
      its expiry instant, inclusive, and as expired afterwards. */
  lemma IssueThenVerify(users: seq<User>, tokens: seq<ResetToken>, k: nat, code: string, issuedAt: int, now: int)
    requires k < |users| && FirstWith(users, Email, users[k].email, k)
    ensures VerifyCode(users, Issue(tokens, users[k].id, code, issuedAt), users[k].email, code, now)
         == if now <= issuedAt + ResetWindow then CodeValid(code) else CodeExpired
  {
    IssuedRowIsFirstMatch(tokens, users[k].id, code, issuedAt);
  }

  /** A second request supersedes the first: the first code, if it differs, is now incorrect. */
  lemma ReissueRejectsOldCode(users: seq<User>, tokens: seq<ResetToken>, k: nat,
                              draw1: nat, draw2: nat, t1: int, t2: int, now: int)
    requires k < |users| && FirstWith(users, Email, users[k].email, k)
    requires draw1 != draw2
    ensures VerifyCode(users, Issue(Issue(tokens, users[k].id, DecimalString(draw1), t1), users[k].id, DecimalString(draw2), t2),
                       users[k].email, DecimalString(draw1), now) == IncorrectCode
  {
    var id := users[k].id;
    var c1, c2 := DecimalString(draw1), DecimalString(draw2);
    if c1 == c2 {
      DecimalInjective(draw1, draw2);
    }
    var first := Issue(tokens, id, c1, t1);
    var rest := WithoutOwner(first, id);
    var s := Issue(first, id, c2, t2);
    forall j | 0 <= j < |s|
      ensures !Matches(s[j], ByOwnerAndCode(id, c1))
    {
      if j < |rest| {
        assert s[j] == rest[j] && rest[j] in rest;
      }
    }
  }

  /** When the code is held by one row only, a code that `verify_code` accepted
      leads `reset_password_code` to that same account's row. */
  lemma VerifiedCodeResetsSameUser(users: seq<User>, tokens: seq<ResetToken>, email: string, code: string, now: int)
    requires CodeHeldOnce(tokens, code)
    requires VerifyCode(users, tokens, email, code, now).CodeValid?
    ensures Taken(users, Email, email)
    ensures LookupResetToken(tokens, code, now).Some?
    ensures tokens[LookupResetToken(tokens, code, now).value].userId == users[FindUser(users, Email, email).value].id
  {
  }

  /** Two accounts may hold the same code (issued in turn, as request_password_reset
      does); the reset step looks the code up without the account, so the second
      account's verified code resets the first account's password. */
  lemma ResetByCodeIgnoresOwner()
    ensures var users := [User(1, "ana", "ana@x.org", "1", Hash("a"), UsuarioRole),
                          User(2, "ben", "ben@x.org", "2", Hash("b"), UsuarioRole)];
            var tokens := Issue(Issue([], 1, "123456", 0), 2, "123456", 0);
            && VerifyCode(users, tokens, "ben@x.org", "123456", 0) == CodeValid("123456")
            && LookupResetToken(tokens, "123456", 0) == Some(0)
            && tokens[0].userId == 1
            && SetPassword(users, tokens[0].userId, Hash("new"))[0].password == Hash("new")
            && SetPassword(users, tokens[0].userId, Hash("new"))[1] == users[1]
  {
    var users := [User(1, "ana", "ana@x.org", "1", Hash("a"), UsuarioRole),
                  User(2, "ben", "ben@x.org", "2", Hash("b"), UsuarioRole)];
    var first := Issue([], 1, "123456", 0);
    assert first == [ResetToken(1, "123456", ResetWindow)];
    var tokens := Issue(first, 2, "123456", 0);
    assert WithoutOwner(first, 2) == first;
    assert tokens == [ResetToken(1, "123456", ResetWindow), ResetToken(2, "123456", ResetWindow)];
    assert FindUser(users, Email, "ben@x.org") == Some(1);
    assert FindToken(tokens, ByOwnerAndCode(2, "123456")) == Some(1);
    assert FindToken(tokens, ByCode("123456")) == Some(0);
    var updated := SetPassword(users, 1, Hash("new"));
    assert updated[0] == users[0].(password := Hash("new")) && updated[1] == users[1];
  }

  /** A consumed code is retired only when no other row holds it: with two holders,
      the replay after the first reset finds the second account's row. */
  lemma ReplayReachesOtherHolder()
    ensures var tokens := Issue(Issue([], 1, "123456", 0), 2, "123456", 0);
            && LookupResetToken(tokens, "123456", 0) == Some(0)
            && tokens[0].userId == 1
            && LookupResetToken(RemoveAt(tokens, 0), "123456", 0) == Some(0)
            && RemoveAt(tokens, 0)[0].userId == 2
  {
    var first := Issue([], 1, "123456", 0);
    assert first == [ResetToken(1, "123456", ResetWindow)];
    var tokens := Issue(first, 2, "123456", 0);
    assert WithoutOwner(first, 2) == first;
    assert tokens == [ResetToken(1, "123456", ResetWindow), ResetToken(2, "123456", ResetWindow)];
    assert FindToken(tokens, ByCode("123456")) == Some(0);
    assert RemoveAt(tokens, 0) == [ResetToken(2, "123456", ResetWindow)];
    assert FindToken(RemoveAt(tokens, 0), ByCode("123456")) == Some(0);
  }

  /** After a reset stores the hash of `newPassword`, the account logs in with it,
      and no longer with any other password. */
  lemma LoginAfterReset(users: seq<User>, k: nat, newPassword: string, otherPassword: string)
    requires k < |users| && FirstWith(users, Username, users[k].username, k)
    requires otherPassword != newPassword
    ensures Login(SetPassword(users, users[k].id, Hash(newPassword)), users[k].username, newPassword)
         == LoggedIn(users[k].id, RoleRedirect(users[k].role))
    ensures Login(SetPassword(users, users[k].id, Hash(newPassword)), users[k].username, otherPassword).BadCredentials?
  {
  }
}
