/** The `User` table of the Level Up application and the queries the request
    handlers in app.py run against it. Rows are kept in insertion order, so
    `filter_by(...).first()` is the earliest matching row. */
module Users {

  datatype Option<T> = None | Some(value: T)

  /** Primary key of the `User` table. */
  type UserId = nat

  /** Stand-in for werkzeug's salted password hash. Only the check matters to
      the handlers: a digest accepts exactly the password it was made from. */
  datatype Digest = Digest(secret: string)

  /** `generate_password_hash`. */
  function Hash(password: string): Digest
  {
    Digest(password)
  }

  /** `check_password_hash(h, password)`. */
  predicate CheckPassword(h: Digest, password: string)
  {
    h == Hash(password)
  }

  /** The check accepts a digest exactly for the password it was made from. */
  lemma CheckPasswordExact(password: string, attempt: string)
    ensures CheckPassword(Hash(password), attempt) <==> attempt == password
  {
  }

  /** A row of the `User` table; `role` is the free-text role column. */
  datatype User = User(id: UserId, username: string, email: string, documento: string,
                       password: Digest, role: string)

  /** The text columns the handlers filter on. */
  datatype Field = Username | Email | Documento

  function FieldOf(u: User, f: Field): string
  {
    match f
    case Username => u.username
    case Email => u.email
    case Documento => u.documento
  }

  /** Some row has `v` in column `f`. */
  predicate Taken(users: seq<User>, f: Field, v: string)
  {
    exists k :: 0 <= k < |users| && FieldOf(users[k], f) == v
  }

  /** Row `k` is the one `filter_by(f=v).first()` returns. */
  predicate FirstWith(users: seq<User>, f: Field, v: string, k: int)
  {
    0 <= k < |users| && FieldOf(users[k], f) == v &&
    forall j :: 0 <= j < k ==> FieldOf(users[j], f) != v
  }

  /** `User.query.filter_by(<f>=v).first()`, as the index of the row found. */
  function FindUser(users: seq<User>, f: Field, v: string): (r: Option<nat>)
    ensures r.Some? ==> FirstWith(users, f, v, r.value)
    ensures r.None? <==> !Taken(users, f, v)
  {
    if |users| == 0 then None
    else if FieldOf(users[0], f) == v then Some(0)
    else match FindUser(users[1..], f, v)
      case None =>
        assert forall k :: 1 <= k < |users| ==> users[k] == users[1..][k - 1];
        None
      case Some(k) =>
        assert forall j :: 1 <= j < k + 1 ==> users[j] == users[1..][j - 1];
        Some(k + 1)
  }

  /** No two rows share column `f`. */
  predicate Unique(users: seq<User>, f: Field)
  {
    forall i, j :: 0 <= i < j < |users| ==> FieldOf(users[i], f) != FieldOf(users[j], f)
  }

  /** No two rows share a primary key. */
  predicate DistinctIds(users: seq<User>)
  {
    forall i, j :: 0 <= i < j < |users| ==> users[i].id != users[j].id
  }

  predicate HasId(users: seq<User>, id: UserId)
  {
    exists k :: 0 <= k < |users| && users[k].id == id
  }

  /** `User.query.get(id)`: the row with primary key `id`. */
  function UserById(users: seq<User>, id: UserId): (r: Option<nat>)
    ensures r.Some? ==> r.value < |users| && users[r.value].id == id
    ensures r.None? <==> !HasId(users, id)
  {
    if |users| == 0 then None
    else if users[0].id == id then Some(0)
    else match UserById(users[1..], id)
      case None =>
        assert forall k :: 1 <= k < |users| ==> users[k] == users[1..][k - 1];
        None
      case Some(k) => Some(k + 1)
  }

  /** Under distinct primary keys, the row `get` returns is the only one with that key. */
  lemma UserByIdExact(users: seq<User>, k: nat)
    requires DistinctIds(users) && k < |users|
    ensures UserById(users, users[k].id) == Some(k)
  {
  }

  /** The `users` table after `user.password = h` for the row with key `id`. */
  function SetPassword(users: seq<User>, id: UserId, h: Digest): (r: seq<User>)
    ensures |r| == |users|
    ensures forall k :: 0 <= k < |users| && users[k].id != id ==> r[k] == users[k]
    ensures forall k :: 0 <= k < |users| && users[k].id == id ==> r[k] == users[k].(password := h)
  {
    seq(|users|, k requires 0 <= k < |users| =>
      if users[k].id == id then users[k].(password := h) else users[k])
  }

  /** Under distinct keys, writing the hash into row `k` is `SetPassword` for that row's key. */
  lemma SetPasswordAt(users: seq<User>, k: nat, h: Digest)
    requires DistinctIds(users) && k < |users|
    ensures users[k := users[k].(password := h)] == SetPassword(users, users[k].id, h)
  {
  }

  /** Appending a row whose value in `f` is not taken keeps `f` unique. */
  lemma AppendKeepsUnique(users: seq<User>, u: User, f: Field)
    requires Unique(users, f) && !Taken(users, f, FieldOf(u, f))
    ensures Unique(users + [u], f)
  {
  }
}
