/** The `PasswordResetToken` table: rows (user_id, token, expiration) in
    insertion order, and the queries and deletions app.py runs on it. */
module Tokens {
  import opened Users

  /** A row of the table; `code` is the `token` column. */
  datatype ResetToken = ResetToken(userId: UserId, code: string, expiration: int)

  /** `timedelta(minutes=15)`, on an integer clock counting seconds. */
  const ResetWindow: int := 15 * 60

  /** `expiration < datetime.utcnow()`: at `now == expiration` a token is still live. */
  predicate Expired(t: ResetToken, now: int)
  {
    t.expiration < now
  }

  /** A token is live up to and including its expiry instant, and once expired it stays expired. */
  lemma ExpiryBoundary(t: ResetToken, now: int, later: int)
    ensures !Expired(t, t.expiration) && Expired(t, t.expiration + 1)
    ensures Expired(t, now) && now <= later ==> Expired(t, later)
  {
  }

  /** The rows owned by `id`, in table order. */
  function OwnedBy(tokens: seq<ResetToken>, id: UserId): (r: seq<ResetToken>)
    ensures forall t :: t in r <==> t in tokens && t.userId == id
  {
    if |tokens| == 0 then []
    else (if tokens[0].userId == id then [tokens[0]] else []) + OwnedBy(tokens[1..], id)
  }

  /** `PasswordResetToken.query.filter_by(user_id=id).delete()`. */
  function WithoutOwner(tokens: seq<ResetToken>, id: UserId): (r: seq<ResetToken>)
    ensures forall t :: t in r <==> t in tokens && t.userId != id
    ensures |r| <= |tokens|
  {
    if |tokens| == 0 then []
    else (if tokens[0].userId != id then [tokens[0]] else []) + WithoutOwner(tokens[1..], id)
  }

  /** Each user holds at most one row. */
  ghost predicate OneTokenPerUser(tokens: seq<ResetToken>)
  {
    forall id :: |OwnedBy(tokens, id)| <= 1
  }

  lemma {:induction false} OwnedByConcat(a: seq<ResetToken>, b: seq<ResetToken>, id: UserId)
    ensures OwnedBy(a + b, id) == OwnedBy(a, id) + OwnedBy(b, id)
  {
    if |a| > 0 {
      assert (a + b)[1..] == a[1..] + b;
      OwnedByConcat(a[1..], b, id);
    } else {
      assert a + b == b;
    }
  }

  /** Deleting one owner's rows empties that owner and leaves every other owner as it was. */
  lemma {:induction false} OwnedByWithoutOwner(tokens: seq<ResetToken>, id: UserId, other: UserId)
    ensures OwnedBy(WithoutOwner(tokens, id), other) == if other == id then [] else OwnedBy(tokens, other)
  {
    if |tokens| > 0 {
      var head := if tokens[0].userId != id then [tokens[0]] else [];
      OwnedByConcat(head, WithoutOwner(tokens[1..], id), other);
      OwnedByWithoutOwner(tokens[1..], id, other);
    }
  }

  /** The deletion works row by row: the surviving rows keep their relative order. */
  lemma {:induction false} WithoutOwnerConcat(a: seq<ResetToken>, b: seq<ResetToken>, id: UserId)
    ensures WithoutOwner(a + b, id) == WithoutOwner(a, id) + WithoutOwner(b, id)
  {
    if |a| > 0 {
      assert (a + b)[1..] == a[1..] + b;
      WithoutOwnerConcat(a[1..], b, id);
    } else {
      assert a + b == b;
    }
  }

  /** A row that survives the deletion and was the first match for a filter
      is still the first match afterwards. */
  lemma WithoutOwnerKeepsFirstMatch(tokens: seq<ResetToken>, id: UserId, key: TokenKey, i: nat)
    requires FirstMatch(tokens, key, i) && tokens[i].userId != id
    ensures var r := WithoutOwner(tokens, id);
            exists j :: FirstMatch(r, key, j) && r[j] == tokens[i]
  {
    var before, after := tokens[..i], tokens[i + 1..];
    assert tokens == before + ([tokens[i]] + after);
    WithoutOwnerConcat(before, [tokens[i]] + after, id);
    WithoutOwnerConcat([tokens[i]], after, id);
    var r := WithoutOwner(tokens, id);
    var head := WithoutOwner(before, id);
    assert WithoutOwner([tokens[i]], id) == [tokens[i]];
    assert r == head + ([tokens[i]] + WithoutOwner(after, id));
    assert r[|head|] == tokens[i];
    forall j | 0 <= j < |head|
      ensures !Matches(r[j], key)
    {
      assert r[j] == head[j];
      assert head[j] in before;
      var m :| 0 <= m < |before| && before[m] == head[j];
      assert tokens[m] == before[m];
    }
    assert FirstMatch(r, key, |head|);
  }

  /** The table after request_password_reset for the user with key `id`:
      the user's old rows deleted, then a row expiring one window after `now` added. */
  function Issue(tokens: seq<ResetToken>, id: UserId, code: string, now: int): seq<ResetToken>
  {
    WithoutOwner(tokens, id) + [ResetToken(id, code, now + ResetWindow)]
  }

  /** The issued row is last, no earlier row is the user's, and the rows are
      exactly the issued one and the other users' old rows. */
  lemma IssueShape(tokens: seq<ResetToken>, id: UserId, code: string, now: int)
    ensures var r := Issue(tokens, id, code, now);
            && |r| >= 1 && r[|r| - 1] == ResetToken(id, code, now + ResetWindow)
            && (forall j :: 0 <= j < |r| - 1 ==> r[j].userId != id)
            && (forall t :: t in r <==> t == ResetToken(id, code, now + ResetWindow) || (t in tokens && t.userId != id))
  {
  }

  /** After issuing, the user owns exactly the new row; every other user's rows are untouched. */
  lemma IssueSupersedes(tokens: seq<ResetToken>, id: UserId, code: string, now: int, other: UserId)
    ensures OwnedBy(Issue(tokens, id, code, now), id) == [ResetToken(id, code, now + ResetWindow)]
    ensures other != id ==> OwnedBy(Issue(tokens, id, code, now), other) == OwnedBy(tokens, other)
  {
    var issued := [ResetToken(id, code, now + ResetWindow)];
    OwnedByConcat(WithoutOwner(tokens, id), issued, id);
    OwnedByWithoutOwner(tokens, id, id);
    OwnedByConcat(WithoutOwner(tokens, id), issued, other);
    OwnedByWithoutOwner(tokens, id, other);
    assert OwnedBy(issued, other) == if other == id then issued else [];
  }

  /** Issuing keeps at most one row per user. */
  lemma IssueKeepsOneTokenPerUser(tokens: seq<ResetToken>, id: UserId, code: string, now: int)
    requires OneTokenPerUser(tokens)
    ensures OneTokenPerUser(Issue(tokens, id, code, now))
  {
    forall other: UserId
      ensures |OwnedBy(Issue(tokens, id, code, now), other)| <= 1
    {
      IssueSupersedes(tokens, id, code, now, other);
    }
  }

  /** The filters app.py applies to the table. */
  datatype TokenKey = ByCode(code: string) | ByOwnerAndCode(owner: UserId, code: string)

  predicate Matches(t: ResetToken, key: TokenKey)
  {
    match key
    case ByCode(c) => t.code == c
    case ByOwnerAndCode(id, c) => t.userId == id && t.code == c
  }

  /** Row `i` is the one `filter_by(<key>).first()` returns. */
  predicate FirstMatch(tokens: seq<ResetToken>, key: TokenKey, i: int)
  {
    0 <= i < |tokens| && Matches(tokens[i], key) &&
    forall j :: 0 <= j < i ==> !Matches(tokens[j], key)
  }

  /** `PasswordResetToken.query.filter_by(<key>).first()`, as the index of the row found. */
  function FindToken(tokens: seq<ResetToken>, key: TokenKey): (r: Option<nat>)
    ensures r.Some? ==> FirstMatch(tokens, key, r.value)
    ensures r.None? <==> forall j :: 0 <= j < |tokens| ==> !Matches(tokens[j], key)
  {
    if |tokens| == 0 then None
    else if Matches(tokens[0], key) then Some(0)
    else match FindToken(tokens[1..], key)
      case None =>
        assert forall j :: 1 <= j < |tokens| ==> tokens[j] == tokens[1..][j - 1];
        None
      case Some(i) =>
        assert forall j :: 1 <= j < i + 1 ==> tokens[j] == tokens[1..][j - 1];
        Some(i + 1)
  }

  /** `db.session.delete(reset_token)` for the row at index `i`: exactly that row goes. */
  function RemoveAt(tokens: seq<ResetToken>, i: nat): (r: seq<ResetToken>)
    requires i < |tokens|
    ensures |r| == |tokens| - 1
    ensures forall j :: 0 <= j < |r| ==> r[j] == if j < i then tokens[j] else tokens[j + 1]
    ensures multiset(r) == multiset(tokens) - multiset{tokens[i]}
  {
    assert tokens == tokens[..i] + [tokens[i]] + tokens[i + 1..];
    tokens[..i] + tokens[i + 1..]
  }

  /** Deleting a row never gives a user more rows. */
  lemma RemoveAtOwnedBy(tokens: seq<ResetToken>, i: nat, id: UserId)
    requires i < |tokens|
    ensures |OwnedBy(RemoveAt(tokens, i), id)| <= |OwnedBy(tokens, id)|
  {
    assert tokens == tokens[..i] + ([tokens[i]] + tokens[i + 1..]);
    OwnedByConcat(tokens[..i], [tokens[i]] + tokens[i + 1..], id);
    OwnedByConcat([tokens[i]], tokens[i + 1..], id);
    OwnedByConcat(tokens[..i], tokens[i + 1..], id);
  }

  /** Deleting a user's only row leaves that user with no row at all. */
  lemma {:induction false} RemoveOnlyRow(tokens: seq<ResetToken>, i: nat)
    requires i < |tokens| && |OwnedBy(tokens, tokens[i].userId)| <= 1
    ensures forall j :: 0 <= j < |RemoveAt(tokens, i)| ==> RemoveAt(tokens, i)[j].userId != tokens[i].userId
  {
    var id := tokens[i].userId;
    var before, after := tokens[..i], tokens[i + 1..];
    assert tokens == before + ([tokens[i]] + after);
    OwnedByConcat(before, [tokens[i]] + after, id);
    OwnedByConcat([tokens[i]], after, id);
    assert OwnedBy([tokens[i]], id) == [tokens[i]];
    assert OwnedBy(before, id) == [] && OwnedBy(after, id) == [];
    assert RemoveAt(tokens, i) == before + after;
    OwnedByConcat(before, after, id);
    forall j | 0 <= j < |RemoveAt(tokens, i)|
      ensures RemoveAt(tokens, i)[j].userId != id
    {
      assert RemoveAt(tokens, i)[j] in before + after;
    }
  }

  /** The lookup at the top of reset_password_code: the first row with this code, unless it has expired. */
  function LookupResetToken(tokens: seq<ResetToken>, code: string, now: int): (r: Option<nat>)
    ensures r.Some? ==> FirstMatch(tokens, ByCode(code), r.value) && !Expired(tokens[r.value], now)
    ensures r.None? <==>
      (forall j :: 0 <= j < |tokens| ==> tokens[j].code != code) ||
      (exists i :: FirstMatch(tokens, ByCode(code), i) && Expired(tokens[i], now))
  {
    match FindToken(tokens, ByCode(code))
    case None => None
    case Some(i) => if Expired(tokens[i], now) then None else Some(i)
  }

  /** Only one row carries `code`. */
  predicate CodeHeldOnce(tokens: seq<ResetToken>, code: string)
  {
    forall i, j :: 0 <= i < |tokens| && 0 <= j < |tokens| && tokens[i].code == code && tokens[j].code == code ==> i == j
  }

  /** A code held by one row cannot be used again once that row is deleted. */
  lemma ConsumedCodeIsGone(tokens: seq<ResetToken>, i: nat, later: int)
    requires i < |tokens| && CodeHeldOnce(tokens, tokens[i].code)
    ensures LookupResetToken(RemoveAt(tokens, i), tokens[i].code, later).None?
  {
  }
}
