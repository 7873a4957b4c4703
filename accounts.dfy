/** Account maintenance in app.py: the registration validator, the default
    administrator inserted at start-up, and the row a profile edit writes. */
module Accounts {
  import opened Users
  import opened Roles

  /** The validator of `register`: the first taken column
      in the order username, email, documento; None when all three are free. */
  function RegisterCheck(users: seq<User>, username: string, email: string, documento: string): (r: Option<Field>)
    ensures r == Some(Username) <==> Taken(users, Username, username)
    ensures r == Some(Email) <==> !Taken(users, Username, username) && Taken(users, Email, email)
    ensures r == Some(Documento) <==>
      !Taken(users, Username, username) && !Taken(users, Email, email) && Taken(users, Documento, documento)
    ensures r.None? <==>
      !Taken(users, Username, username) && !Taken(users, Email, email) && !Taken(users, Documento, documento)
  {
    var byUsername := FindUser(users, Username, username);
    var byEmail := FindUser(users, Email, email);
    var byDocumento := FindUser(users, Documento, documento);
    if byUsername.Some? then Some(Username)
    else if byEmail.Some? then Some(Email)
    else if byDocumento.Some? then Some(Documento)
    else None
  }

  /** A registration that passes the validator keeps username, email and documento unique. */
  lemma RegisterKeepsUnique(users: seq<User>, u: User)
    requires forall f :: Unique(users, f)
    requires RegisterCheck(users, u.username, u.email, u.documento).None?
    ensures forall f :: Unique(users + [u], f)
  {
    forall f: Field
      ensures Unique(users + [u], f)
    {
      AppendKeepsUnique(users, u, f);
    }
  }

  /** The newly registered user can log in with the password given at registration,
      and is sent to the landing page of the role given at registration. */
  lemma RegisterThenLogin(users: seq<User>, id: UserId, username: string, email: string,
                          documento: string, password: string, role: string)
    requires RegisterCheck(users, username, email, documento).None?
    ensures Login(users + [User(id, username, email, documento, Hash(password), role)], username, password)
         == LoggedIn(id, RoleRedirect(role))
  {
    var s := users + [User(id, username, email, documento, Hash(password), role)];
    forall j | 0 <= j < |users|
      ensures FieldOf(s[j], Username) != username
    {
      assert s[j] == users[j];
    }
    assert FirstWith(s, Username, username, |users|);
  }

  const AdminUsername: string := "edi"
  const AdminEmail: string := "admin@levelup.com"
  const AdminDocumento: string := "123456789"
  const AdminPassword: string := "4512"

  /** The row `create_default_admin` inserts. */
  function DefaultAdmin(id: UserId): (r: User)
    ensures r.id == id && r.role == AdminRole
    ensures r.username == AdminUsername && r.email == AdminEmail && r.documento == AdminDocumento
    ensures forall attempt :: CheckPassword(r.password, attempt) <==> attempt == AdminPassword
  {
    User(id, AdminUsername, AdminEmail, AdminDocumento, Hash(AdminPassword), AdminRole)
  }

  /** The `users` table after `create_default_admin`: the administrator is added
      only when no row has documento 123456789. */
  function WithDefaultAdmin(users: seq<User>, id: UserId): (r: seq<User>)
    ensures Taken(r, Documento, AdminDocumento)
    ensures |users| <= |r| <= |users| + 1 && r[..|users|] == users
    ensures |r| == |users| + 1 <==> !Taken(users, Documento, AdminDocumento)
    ensures |r| == |users| + 1 ==> r[|users|] == DefaultAdmin(id)
  {
    if FindUser(users, Documento, AdminDocumento).Some? then users
    else
      assert FieldOf((users + [DefaultAdmin(id)])[|users|], Documento) == AdminDocumento;
      users + [DefaultAdmin(id)]
  }

  /** Running the bootstrap again changes nothing, whatever id it would have used. */
  lemma DefaultAdminIdempotent(users: seq<User>, id: UserId, laterId: UserId)
    ensures WithDefaultAdmin(WithDefaultAdmin(users, id), laterId) == WithDefaultAdmin(users, id)
  {
  }

  /** The bootstrap keeps the three columns unique when the administrator's
      username and email are not already in use. */
  lemma DefaultAdminKeepsUnique(users: seq<User>, id: UserId)
    requires forall f :: Unique(users, f)
    requires !Taken(users, Username, AdminUsername) && !Taken(users, Email, AdminEmail)
    ensures forall f :: Unique(WithDefaultAdmin(users, id), f)
  {
    if !Taken(users, Documento, AdminDocumento) {
      RegisterKeepsUnique(users, DefaultAdmin(id));
    }
  }

  /** The bootstrap looks at the documento only: a table that already has a user
      named `edi` ends up with two of them. */
  lemma DefaultAdminCanDuplicateUsername()
    ensures var users := [User(1, AdminUsername, "x@y.org", "7", Hash("a"), UsuarioRole)];
            Unique(users, Username) && !Unique(WithDefaultAdmin(users, 2), Username)
  {
    var users := [User(1, AdminUsername, "x@y.org", "7", Hash("a"), UsuarioRole)];
    var after := WithDefaultAdmin(users, 2);
    assert FieldOf(users[0], Documento) != AdminDocumento;
    assert after == users + [DefaultAdmin(2)];
    assert FieldOf(after[0], Username) == FieldOf(after[1], Username);
  }

  /** On an empty table the bootstrap admits the administrator with password 4512 to the admin panel. */
  lemma DefaultAdminLogsIn(id: UserId)
    ensures Login(WithDefaultAdmin([], id), AdminUsername, AdminPassword) == LoggedIn(id, Some(AdminPanel))
  {
  }

  /** The row `edit_profile` writes: new username and
      email, and a new password hash only when the new password is not empty. */
  function EditedUser(u: User, username: string, email: string, newPassword: string): (r: User)
    ensures r.id == u.id && r.documento == u.documento && r.role == u.role
    ensures r.username == username && r.email == email
    ensures newPassword == "" ==> r.password == u.password
    ensures newPassword != "" ==> CheckPassword(r.password, newPassword)
  {
    var edited := u.(username := username, email := email);
    if newPassword != "" then edited.(password := Hash(newPassword)) else edited
  }

  /** `edit_profile` checks no uniqueness: two users with distinct emails can end up sharing one. */
  lemma EditCanDuplicateEmail()
    ensures var users := [User(1, "ana", "ana@x.org", "1", Hash("a"), UsuarioRole),
                          User(2, "ben", "ben@x.org", "2", Hash("b"), CreadorRole)];
            Unique(users, Email) &&
            !Unique(users[1 := EditedUser(users[1], "ben", "ana@x.org", "")], Email)
  {
    var users := [User(1, "ana", "ana@x.org", "1", Hash("a"), UsuarioRole),
                  User(2, "ben", "ben@x.org", "2", Hash("b"), CreadorRole)];
    var edited := users[1 := EditedUser(users[1], "ben", "ana@x.org", "")];
    assert FieldOf(edited[0], Email) == FieldOf(edited[1], Email);
  }
}
