/**
 * Refresh tokens: issued at login for seven days, exchanged for a fresh
 * access token while neither revoked nor expired, revoked at logout.
 * The GUID that names a new token is supplied by the caller.
 */
module RefreshTokenService {
  import opened Wrappers
  import opened Storage
  import opened Entities

  const RefreshLifetime: int := 7 * TicksPerDay

  function HasToken(token: string): Row<RefreshToken> -> bool {
    (row: Row<RefreshToken>) => row.val.token == token
  }

  /** `RefreshTokenRepository.GetAsync`: the first record carrying that token string. */
  function FindByToken(rows: seq<Row<RefreshToken>>, token: string): (r: Option<Row<RefreshToken>>)
    ensures r.Some? ==> r.value in rows && r.value.val.token == token
    ensures r.None? <==> forall i :: 0 <= i < |rows| ==> rows[i].val.token != token
  {
    FindFirst(rows, HasToken(token))
  }

  /** Whether a stored record still buys an access token at `now`; `Expires == now` still does. */
  predicate Usable(t: RefreshToken, now: int) {
    !t.isRevoked && !(t.expires < now)
  }

  /** `RefreshTokenAsync`: an access token for the record's user, or null. */
  function Refresh(rows: seq<Row<RefreshToken>>, token: string, now: int): (r: Option<TokenString>)
    ensures r.Some? <==> FindByToken(rows, token).Some? && Usable(FindByToken(rows, token).value.val, now)
    ensures r.Some? ==> r.value == Jwt(FindByToken(rows, token).value.val.userId)
  {
    match FindByToken(rows, token)
    case None => None
    case Some(row) => if row.val.isRevoked || row.val.expires < now then None else Some(Jwt(row.val.userId))
  }

  /** The rows after `RevokeAsync`: the first record with that token is flagged revoked. */
  function Revoked(rows: seq<Row<RefreshToken>>, token: string): seq<Row<RefreshToken>> {
    match FindByToken(rows, token)
    case None => rows
    case Some(row) => ReplaceById(rows, row.id, row.val.(isRevoked := true))
  }

  /** `CreateRefreshToken`: stores the token for the user, valid for seven days, and returns it. */
  method CreateRefreshToken(tokens: Table<RefreshToken>, userId: int, guid: string, now: int) returns (token: string)
    requires tokens.Valid()
    modifies tokens
    ensures tokens.Valid()
    ensures token == guid
    ensures tokens.rows == old(tokens.rows) + [Row(old(tokens.nextId), RefreshToken(guid, userId, now + RefreshLifetime, false))]
    ensures FindByToken(old(tokens.rows), guid).None? ==>
      FindByToken(tokens.rows, guid) == Some(Row(old(tokens.nextId), RefreshToken(guid, userId, now + RefreshLifetime, false)))
  {
    token := guid;
    var entity := RefreshToken(token, userId, now + RefreshLifetime, false);
    FindFirstAppend(tokens.rows, Row(tokens.nextId, entity), HasToken(guid));
    var _ := tokens.Add(entity);
  }

  /** `LogoutAsync`: revokes the token if it is known. */
  method Logout(tokens: Table<RefreshToken>, token: string)
    requires tokens.Valid()
    modifies tokens
    ensures tokens.Valid()
    ensures tokens.rows == Revoked(old(tokens.rows), token)
  {
    var entity := FindByToken(tokens.rows, token);
    if entity.Some? {
      FindByIdUnique(tokens.rows, entity.value);
      tokens.Update(entity.value.id, entity.value.val.(isRevoked := true));
    }
  }

  /** A token issued at `now` (under a GUID not seen before) refreshes exactly until seven days later, for its user. */
  lemma IssuedTokenLifetime(rows: seq<Row<RefreshToken>>, id: int, guid: string, userId: int, now: int, t: int)
    requires FindByToken(rows, guid).None?
    ensures var issued := rows + [Row(id, RefreshToken(guid, userId, now + RefreshLifetime, false))];
      Refresh(issued, guid, t) == if t <= now + RefreshLifetime then Some(Jwt(userId)) else None
  {
    FindFirstAppend(rows, Row(id, RefreshToken(guid, userId, now + RefreshLifetime, false)), HasToken(guid));
  }

  /** After logout the token never refreshes again, at any instant. */
  lemma {:induction false} RevokedNeverRefreshes(rows: seq<Row<RefreshToken>>, token: string, now: int)
    requires IdsIncreasing(rows)
    ensures Refresh(Revoked(rows, token), token, now).None?
  {
    var found := FindByToken(rows, token);
    if found.Some? {
      RevokeHitsFirst(rows, token, found.value);
    }
  }

  /** Revoking rewrites the first match in place, so the lookup then finds the revoked copy. */
  lemma {:induction false} RevokeHitsFirst(rows: seq<Row<RefreshToken>>, token: string, row: Row<RefreshToken>)
    requires IdsIncreasing(rows)
    requires FindByToken(rows, token) == Some(row)
    ensures FindByToken(ReplaceById(rows, row.id, row.val.(isRevoked := true)), token) == Some(Row(row.id, row.val.(isRevoked := true)))
  {
    var r := ReplaceById(rows, row.id, row.val.(isRevoked := true));
    assert r[1..] == ReplaceById(rows[1..], row.id, row.val.(isRevoked := true));
    if rows[0].val.token != token {
      assert FindByToken(rows[1..], token) == Some(row);
      RevokeHitsFirst(rows[1..], token, row);
    }
  }
}
