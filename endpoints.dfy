/**
 * Each endpoint of the backend as a function from the store's contents
 * (and the request's inputs) to the new contents and the response, with
 * the properties the endpoints promise proved as lemmas. Randomness (new
 * ids, nonces), the clock and the provider answers are parameters.
 */
module Endpoints {
  import opened Wrappers
  import opened Text
  import opened Records
  import opened Auth
  import opened Http
  import opened Directory
  import opened Providers

  // ---------------------------------------------------------------------------
  // Registration and password login

  /** The body of `POST /auth/register`; `bio` and `interests` may be omitted or null. */
  datatype Registration = Registration(
    email: string, password: string, displayName: string, bio: Option<string>, interests: Option<string>)

  /** The record `register` writes; `hashed` is `hash_password(password)`, computed with a fresh salt. */
  function NewEmailUser(p: Registration, uid: string, hashed: string, now: Timestamp): User {
    User(uid, Lower(p.email), hashed, p.displayName, p.bio.GetOr(""), p.interests.GetOr(""),
         "", "", "", "email", "", now, now)
  }

  /** `POST /auth/register` with `uid` the new `uuid4`. */
  function Register(db: Db, p: Registration, uid: string, hashed: string, now: Timestamp, ttlMinutes: int)
    : (Db, Result<TokenResponse, HttpError>)
  {
    if GetUserByEmail(db, p.email).Some? then (db, Err(EmailTaken))
    else
      (AddToIndex(SetUser(db, uid, NewEmailUser(p, uid, hashed, now)), uid),
       Ok(TokenResponse(CreateAccessToken(uid, now, ttlMinutes), "bearer", uid, p.displayName, Lower(p.email))))
  }

  /** `POST /auth/token`: `username` is the email; `checkpw` is bcrypt's comparison. */
  function Login(db: Db, username: string, password: string, checkpw: (string, string) -> bool,
                 now: Timestamp, ttlMinutes: int): (r: Result<TokenResponse, HttpError>)
    ensures r.Err? ==> r.error == BadCredentials
  {
    var found := GetUserByEmail(db, username);
    if found.None? || !VerifyPassword(checkpw, password, found.value.passwordHash) then Err(BadCredentials)
    else
      var u := found.value;
      Ok(TokenResponse(CreateAccessToken(u.userId, now, ttlMinutes), "bearer", u.userId, u.displayName, u.email))
  }

  /** A taken email is refused with 400 and the store is left as it was. */
  lemma RegisterRejectsDuplicate(db: Db, p: Registration, uid: string, hashed: string, now: Timestamp, ttlMinutes: int)
    requires GetUserByEmail(db, p.email).Some?
    ensures Register(db, p, uid, hashed, now, ttlMinutes) == (db, Err(EmailTaken))
  {
  }

  /**
   * A free email gets a record under `uid`: a new account exactly when
   * `uid` is fresh, otherwise a replacement of the one under `uid`. It holds the
   * lower-cased email, provider `email`, no provider subject id and equal
   * creation and update times; `uid` joins `users:all`; other records stay;
   * the token returned names `uid`.
   */
  lemma RegisterCreatesAccount(db: Db, p: Registration, uid: string, hashed: string, now: Timestamp, ttlMinutes: int)
    requires GetUserByEmail(db, p.email).None?
    ensures var (d, r) := Register(db, p, uid, hashed, now, ttlMinutes);
      && r.Ok? && r.value.userId == uid && r.value.accessToken.sub == uid && r.value.email == Lower(p.email)
      && d.users.Keys == db.users.Keys + {uid}
      && (forall id :: id in db.users && id != uid ==> d.users[id] == db.users[id])
      && d.users[uid].userId == uid && d.users[uid].email == Lower(p.email)
      && d.users[uid].passwordHash == hashed
      && d.users[uid].provider == "email" && d.users[uid].oauthId == ""
      && d.users[uid].createdAt == d.users[uid].updatedAt
      && d.allIds == db.allIds + {uid}
      && d.states == db.states
    ensures var d := Register(db, p, uid, hashed, now, ttlMinutes).0;
      |d.users.Keys| == |db.users.Keys| + (if uid in db.users then 0 else 1)
  {
  }

  lemma RegisterKeepsConsistent(db: Db, p: Registration, uid: string, hashed: string, now: Timestamp, ttlMinutes: int)
    requires Consistent(db) && FreshId(db, uid)
    ensures Consistent(Register(db, p, uid, hashed, now, ttlMinutes).0)
  {
    if GetUserByEmail(db, p.email).None? {
      LookupInConsistent(db, p.email);
      LowerIdempotent(p.email);
      CreateKeepsConsistent(db, uid, NewEmailUser(p, uid, hashed, now));
    }
  }

  /**
   * After a registration, logging in with any casing of the email succeeds
   * exactly when bcrypt accepts the password against the stored hash, and
   * the response echoes the new account.
   */
  lemma RegisterThenLogin(db: Db, p: Registration, uid: string, hashed: string, now: Timestamp, ttlMinutes: int,
                          username: string, password: string, checkpw: (string, string) -> bool, later: Timestamp)
    requires uid != "" && GetUserByEmail(db, p.email).None? && Lower(username) == Lower(p.email)
    ensures Login(Register(db, p, uid, hashed, now, ttlMinutes).0, username, password, checkpw, later, ttlMinutes)
         == if VerifyPassword(checkpw, password, hashed)
            then Ok(TokenResponse(CreateAccessToken(uid, later, ttlMinutes), "bearer", uid, p.displayName, Lower(p.email)))
            else Err(BadCredentials)
  {
    var user := NewEmailUser(p, uid, hashed, now);
    LowerIdempotent(p.email);
    SetUserRoundTrip(db, uid, user, username);
  }

  /** An account whose stored hash is empty, as every OAuth-created one is, never logs in by password. */
  lemma PasswordlessAccountCannotLogIn(db: Db, username: string, password: string, checkpw: (string, string) -> bool,
                                       now: Timestamp, ttlMinutes: int)
    requires GetUserByEmail(db, username).Some? && GetUserByEmail(db, username).value.passwordHash == ""
    ensures Login(db, username, password, checkpw, now, ttlMinutes) == Err(BadCredentials)
  {
    EmptyHashNeverVerifies(checkpw, password);
  }

  /** Login succeeds exactly for a stored account whose hash bcrypt accepts, and echoes what is stored. */
  lemma LoginSucceedsIff(db: Db, username: string, password: string, checkpw: (string, string) -> bool,
                         now: Timestamp, ttlMinutes: int)
    ensures var r := Login(db, username, password, checkpw, now, ttlMinutes);
      var found := GetUserByEmail(db, username);
      && (r.Ok? <==> found.Some? && VerifyPassword(checkpw, password, found.value.passwordHash))
      && (r.Ok? ==> r.value.userId == found.value.userId && r.value.displayName == found.value.displayName
                    && r.value.email == found.value.email && r.value.accessToken.sub == found.value.userId)
  {
  }

  // ---------------------------------------------------------------------------
  // The OAuth state nonce (section 10.12 of RFC 6749)

  /** `GET /auth/{google,github}/login`: store the nonce with `provider` for 600 seconds. */
  function BeginOAuth(db: Db, provider: string, nonce: string, now: Timestamp): (Db, LoginStart) {
    (PutState(db, nonce, provider, now + StateTtl), LoginStart(nonce))
  }

  /** The state check both callbacks open with: refuse a missing or expired nonce, else delete it. */
  function Redeem(db: Db, state: string, now: Timestamp): (r: Option<Db>)
    ensures r.Some? <==> LiveState(db, state, now)
    ensures r.Some? ==> state !in r.value.states && r.value == DropState(db, state)
  {
    if LiveState(db, state, now) then Some(DropState(db, state)) else None
  }

  /** A nonce just issued is accepted until 600 seconds have passed, and the issue touches no account. */
  lemma BeginOAuthLifetime(db: Db, provider: string, nonce: string, now: Timestamp, t: Timestamp)
    requires provider != ""
    ensures var d := BeginOAuth(db, provider, nonce, now).0;
      && (LiveState(d, nonce, t) <==> t < now + StateTtl)
      && d.users == db.users && d.emailToId == db.emailToId && d.allIds == db.allIds
  {
  }

  // ---------------------------------------------------------------------------
  // Find-or-create by email after a provider login

  function NewOAuthUser(uid: string, ident: Identity, provider: string, now: Timestamp): User {
    User(uid, ident.email, "", ident.displayName, ident.bio, "", ident.avatarUrl, ident.location, ident.website,
         provider, ident.oauthId, now, now)
  }

  /** Create an account for an unknown email; returns the new store and the account's id. */
  function CreateOAuthAccount(db: Db, ident: Identity, provider: string, uid: string, now: Timestamp): (Db, string) {
    (AddToIndex(SetUser(db, uid, NewOAuthUser(uid, ident, provider, now)), uid), uid)
  }

  /** Google's linking: a known email only gets a new, non-empty, different avatar. */
  function LinkGoogle(db: Db, ident: Identity, uid: string, now: Timestamp): (Db, string) {
    var found := GetUserByEmail(db, ident.email);
    if found.None? then CreateOAuthAccount(db, ident, "google", uid, now)
    else
      var u := found.value;
      if ident.avatarUrl != "" && u.avatarUrl != ident.avatarUrl
      then (SetUser(db, u.userId, u.(avatarUrl := ident.avatarUrl, updatedAt := now)), u.userId)
      else (db, u.userId)
  }

  /** GitHub's linking: a known email always takes the profile's avatar, even an empty one. */
  function LinkGithub(db: Db, ident: Identity, uid: string, now: Timestamp): (Db, string) {
    var found := GetUserByEmail(db, ident.email);
    if found.None? then CreateOAuthAccount(db, ident, "github", uid, now)
    else
      var u := found.value;
      (SetUser(db, u.userId, u.(avatarUrl := ident.avatarUrl, updatedAt := now)), u.userId)
  }

  /**
   * On a new email either provider writes one account under `uid` with
   * the provider's name and subject id and no password, listed in
   * `users:all`, and leaves the other records alone. The number of accounts
   * grows by one exactly when `uid` is fresh; a `uid` already in use has its
   * account replaced.
   */
  lemma LinkCreatesAccount(db: Db, ident: Identity, uid: string, now: Timestamp, google: bool)
    requires GetUserByEmail(db, ident.email).None?
    ensures var (d, id) := if google then LinkGoogle(db, ident, uid, now) else LinkGithub(db, ident, uid, now);
      && id == uid && uid in d.users && uid in d.allIds
      && d.users[uid].provider == (if google then "google" else "github")
      && d.users[uid].oauthId == ident.oauthId && d.users[uid].email == ident.email
      && d.users[uid].passwordHash == "" && d.users[uid].createdAt == d.users[uid].updatedAt
      && d.users.Keys == db.users.Keys + {uid}
      && (forall other :: other in db.users && other != uid ==> d.users[other] == db.users[other])
      && d.states == db.states
    ensures var d := (if google then LinkGoogle(db, ident, uid, now) else LinkGithub(db, ident, uid, now)).0;
      |d.users.Keys| == |db.users.Keys| + (if uid in db.users then 0 else 1)
  {
  }

  /**
   * On a known email Google changes at most the avatar and the update time
   * of that one account, and only when the new avatar is non-empty and
   * differs; id, email, provider, subject id, hash, creation time and the
   * other profile fields stay.
   */
  lemma LinkGoogleExisting(db: Db, ident: Identity, uid: string, now: Timestamp)
    requires Consistent(db) && GetUserByEmail(db, ident.email).Some?
    ensures var u := GetUserByEmail(db, ident.email).value;
      var (d, id) := LinkGoogle(db, ident, uid, now);
      && id == u.userId && d.users.Keys == db.users.Keys && d.emailToId == db.emailToId && d.allIds == db.allIds
      && d.users[id] == (if ident.avatarUrl != "" && ident.avatarUrl != u.avatarUrl
                         then u.(avatarUrl := ident.avatarUrl, updatedAt := now) else u)
      && (forall other :: other in db.users && other != id ==> d.users[other] == db.users[other])
      && d.states == db.states
  {
    LookupInConsistent(db, ident.email);
  }

  /** On a known email GitHub overwrites the avatar (even with `""`) and the update time, and nothing else. */
  lemma LinkGithubExisting(db: Db, ident: Identity, uid: string, now: Timestamp)
    requires Consistent(db) && GetUserByEmail(db, ident.email).Some?
    ensures var u := GetUserByEmail(db, ident.email).value;
      var (d, id) := LinkGithub(db, ident, uid, now);
      && id == u.userId && d.users.Keys == db.users.Keys && d.emailToId == db.emailToId && d.allIds == db.allIds
      && d.users[id] == u.(avatarUrl := ident.avatarUrl, updatedAt := now)
      && (forall other :: other in db.users && other != id ==> d.users[other] == db.users[other])
      && d.states == db.states
  {
    LookupInConsistent(db, ident.email);
  }

  lemma LinkKeepsConsistent(db: Db, ident: Identity, uid: string, now: Timestamp, google: bool)
    requires Consistent(db) && FreshId(db, uid)
    ensures Consistent((if google then LinkGoogle(db, ident, uid, now) else LinkGithub(db, ident, uid, now)).0)
  {
    var found := GetUserByEmail(db, ident.email);
    LookupInConsistent(db, ident.email);
    if found.None? {
      CreateKeepsConsistent(db, uid, NewOAuthUser(uid, ident, if google then "google" else "github", now));
    } else {
      var u := found.value;
      RefreshKeepsConsistent(db, u.userId, u.(avatarUrl := ident.avatarUrl, updatedAt := now));
    }
  }

  /** An account an OAuth login creates can never log in by password. */
  lemma OAuthCreatedAccountCannotLogIn(db: Db, ident: Identity, uid: string, now: Timestamp, google: bool,
                                       username: string, password: string, checkpw: (string, string) -> bool,
                                       later: Timestamp, ttlMinutes: int)
    requires uid != "" && GetUserByEmail(db, ident.email).None? && Lower(username) == Lower(ident.email)
    ensures var d := (if google then LinkGoogle(db, ident, uid, now) else LinkGithub(db, ident, uid, now)).0;
      Login(d, username, password, checkpw, later, ttlMinutes) == Err(BadCredentials)
  {
    var user := NewOAuthUser(uid, ident, if google then "google" else "github", now);
    SetUserRoundTrip(db, uid, user, username);
    PasswordlessAccountCannotLogIn(AddToIndex(SetUser(db, uid, user), uid), username, password, checkpw, later, ttlMinutes);
  }

  // ---------------------------------------------------------------------------
  // The two callbacks

  /**
   * `GET /auth/google/callback`: redeem the state, then the token exchange
   * (a missing `access_token` is a `KeyError`), then userinfo, then link.
   */
  function GoogleCallback(db: Db, state: string, now: Timestamp, ttlMinutes: int,
                          exchange: TokenExchange, info: GoogleUserInfo, uid: string): (Db, Result<Redirect, HttpError>)
  {
    var redeemed := Redeem(db, state, now);
    if redeemed.None? then (db, Err(InvalidState))
    else
      var db1 := redeemed.value;
      if exchange.status != 200 then (db1, Err(GoogleExchangeFailed))
      else if exchange.accessToken.None? then (db1, Err(InternalServerError))
      else if info.status != 200 then (db1, Err(GoogleUserInfoFailed))
      else
        var linked := LinkGoogle(db1, GoogleIdentity(info), uid, now);
        (linked.0, Ok(Redirect(CreateAccessToken(linked.1, now, ttlMinutes), "google")))
  }

  /**
   * `GET /auth/github/callback`: redeem the state, then the token exchange
   * (an absent or empty `access_token` is refused), then resolve the email
   * and link. `randomHex` stands for `uuid4().hex`.
   */
  function GithubCallback(db: Db, state: string, now: Timestamp, ttlMinutes: int, exchange: TokenExchange,
                          user: GithubUser, emails: GithubEmails, uid: string, randomHex: string)
    : (Db, Result<Redirect, HttpError>)
  {
    var redeemed := Redeem(db, state, now);
    if redeemed.None? then (db, Err(InvalidState))
    else
      var db1 := redeemed.value;
      if exchange.status != 200 then (db1, Err(GithubExchangeFailed))
      else if exchange.accessToken.None? || exchange.accessToken.value == "" then (db1, Err(GithubNoAccessToken))
      else
        var email := GithubEmail(ListedEmails(emails), user.email, user.id, randomHex);
        var linked := LinkGithub(db1, GithubIdentity(user, email), uid, now);
        (linked.0, Ok(Redirect(CreateAccessToken(linked.1, now, ttlMinutes), "github")))
  }

  /** A missing or expired state is refused with 400 and nothing at all changes. */
  lemma CallbacksRejectDeadState(db: Db, state: string, now: Timestamp, ttlMinutes: int, exchange: TokenExchange,
                                 info: GoogleUserInfo, user: GithubUser, emails: GithubEmails,
                                 uid: string, randomHex: string)
    requires !LiveState(db, state, now)
    ensures GoogleCallback(db, state, now, ttlMinutes, exchange, info, uid) == (db, Err(InvalidState))
    ensures GithubCallback(db, state, now, ttlMinutes, exchange, user, emails, uid, randomHex) == (db, Err(InvalidState))
  {
  }

  /**
   * A live state is deleted whatever follows; every error after that point
   * leaves the accounts untouched (the nonce stays deleted).
   */
  lemma CallbacksConsumeState(db: Db, state: string, now: Timestamp, ttlMinutes: int, exchange: TokenExchange,
                              info: GoogleUserInfo, user: GithubUser, emails: GithubEmails,
                              uid: string, randomHex: string)
    requires LiveState(db, state, now)
    ensures var (d, r) := GoogleCallback(db, state, now, ttlMinutes, exchange, info, uid);
      && state !in d.states && r != Err(InvalidState)
      && (r.Err? ==> d == DropState(db, state))
    ensures var (d, r) := GithubCallback(db, state, now, ttlMinutes, exchange, user, emails, uid, randomHex);
      && state !in d.states && r != Err(InvalidState)
      && (r.Err? ==> d == DropState(db, state))
  {
  }

  /**
   * Google: a failed token exchange, a token answer without `access_token`
   * (a `KeyError`, hence 500) and a failed userinfo request each abort
   * with the nonce deleted and no account changed.
   */
  lemma GoogleFailuresAbort(db: Db, state: string, now: Timestamp, ttlMinutes: int, exchange: TokenExchange,
                            info: GoogleUserInfo, uid: string)
    requires LiveState(db, state, now)
    ensures exchange.status != 200 ==>
      GoogleCallback(db, state, now, ttlMinutes, exchange, info, uid) == (DropState(db, state), Err(GoogleExchangeFailed))
    ensures exchange.status == 200 && exchange.accessToken.None? ==>
      GoogleCallback(db, state, now, ttlMinutes, exchange, info, uid) == (DropState(db, state), Err(InternalServerError))
    ensures exchange.status == 200 && exchange.accessToken.Some? && info.status != 200 ==>
      GoogleCallback(db, state, now, ttlMinutes, exchange, info, uid) == (DropState(db, state), Err(GoogleUserInfoFailed))
  {
  }

  /**
   * GitHub: a failed token exchange and an absent or empty `access_token`
   * each abort with the nonce deleted and no account changed.
   */
  lemma GithubFailuresAbort(db: Db, state: string, now: Timestamp, ttlMinutes: int, exchange: TokenExchange,
                            user: GithubUser, emails: GithubEmails, uid: string, randomHex: string)
    requires LiveState(db, state, now)
    ensures exchange.status != 200 ==>
      GithubCallback(db, state, now, ttlMinutes, exchange, user, emails, uid, randomHex)
      == (DropState(db, state), Err(GithubExchangeFailed))
    ensures exchange.status == 200 && (exchange.accessToken.None? || exchange.accessToken.value == "") ==>
      GithubCallback(db, state, now, ttlMinutes, exchange, user, emails, uid, randomHex)
      == (DropState(db, state), Err(GithubNoAccessToken))
  {
  }

  /** A state is single-use: replaying it at either callback, then or later, is refused. */
  lemma StateReplayRejected(db: Db, state: string, now: Timestamp, ttlMinutes: int, exchange: TokenExchange,
                            info: GoogleUserInfo, user: GithubUser, emails: GithubEmails, uid: string, randomHex: string,
                            later: Timestamp, exchange2: TokenExchange, info2: GoogleUserInfo, user2: GithubUser,
                            emails2: GithubEmails, uid2: string, randomHex2: string)
    requires now <= later
    ensures var d := GoogleCallback(db, state, now, ttlMinutes, exchange, info, uid).0;
      && GoogleCallback(d, state, later, ttlMinutes, exchange2, info2, uid2) == (d, Err(InvalidState))
      && GithubCallback(d, state, later, ttlMinutes, exchange2, user2, emails2, uid2, randomHex2) == (d, Err(InvalidState))
    ensures var d := GithubCallback(db, state, now, ttlMinutes, exchange, user, emails, uid, randomHex).0;
      && GoogleCallback(d, state, later, ttlMinutes, exchange2, info2, uid2) == (d, Err(InvalidState))
      && GithubCallback(d, state, later, ttlMinutes, exchange2, user2, emails2, uid2, randomHex2) == (d, Err(InvalidState))
  {
    var dg := GoogleCallback(db, state, now, ttlMinutes, exchange, info, uid).0;
    var dh := GithubCallback(db, state, now, ttlMinutes, exchange, user, emails, uid, randomHex).0;
    if LiveState(db, state, now) {
      CallbacksConsumeState(db, state, now, ttlMinutes, exchange, info, user, emails, uid, randomHex);
    }
    CallbacksRejectDeadState(dg, state, later, ttlMinutes, exchange2, info2, user2, emails2, uid2, randomHex2);
    CallbacksRejectDeadState(dh, state, later, ttlMinutes, exchange2, info2, user2, emails2, uid2, randomHex2);
  }

  /** Starting a login only adds a nonce, so it keeps the store consistent. */
  lemma BeginOAuthKeepsConsistent(db: Db, provider: string, nonce: string, now: Timestamp)
    requires Consistent(db)
    ensures Consistent(BeginOAuth(db, provider, nonce, now).0)
  {
  }

  /** A nonce from a login start is accepted by either callback within 600 seconds and refused from then on. */
  lemma IssuedStateWindow(db: Db, provider: string, nonce: string, issuedAt: Timestamp, now: Timestamp, ttlMinutes: int,
                          exchange: TokenExchange, info: GoogleUserInfo, user: GithubUser, emails: GithubEmails,
                          uid: string, randomHex: string)
    requires provider != ""
    ensures var d := BeginOAuth(db, provider, nonce, issuedAt).0;
      var (d2, r) := GoogleCallback(d, nonce, now, ttlMinutes, exchange, info, uid);
      if now < issuedAt + StateTtl then r != Err(InvalidState) && nonce !in d2.states
      else (d2, r) == (d, Err(InvalidState))
    ensures var d := BeginOAuth(db, provider, nonce, issuedAt).0;
      var (d2, r) := GithubCallback(d, nonce, now, ttlMinutes, exchange, user, emails, uid, randomHex);
      if now < issuedAt + StateTtl then r != Err(InvalidState) && nonce !in d2.states
      else (d2, r) == (d, Err(InvalidState))
  {
    var d := BeginOAuth(db, provider, nonce, issuedAt).0;
    if now < issuedAt + StateTtl {
      CallbacksConsumeState(d, nonce, now, ttlMinutes, exchange, info, user, emails, uid, randomHex);
    }
  }

  /**
   * The provider recorded with a live state is never compared with the
   * callback's: a nonce issued for Google works at the GitHub callback and
   * the other way round, with the same outcome whatever was recorded.
   */
  lemma StoredProviderIgnored(db: Db, state: string, p: string, q: string, expiresAt: int, now: Timestamp,
                              ttlMinutes: int, exchange: TokenExchange, info: GoogleUserInfo, user: GithubUser,
                              emails: GithubEmails, uid: string, randomHex: string)
    requires p != "" && q != "" && now < expiresAt
    ensures GoogleCallback(PutState(db, state, p, expiresAt), state, now, ttlMinutes, exchange, info, uid)
         == GoogleCallback(PutState(db, state, q, expiresAt), state, now, ttlMinutes, exchange, info, uid)
    ensures GithubCallback(PutState(db, state, p, expiresAt), state, now, ttlMinutes, exchange, user, emails, uid, randomHex)
         == GithubCallback(PutState(db, state, q, expiresAt), state, now, ttlMinutes, exchange, user, emails, uid, randomHex)
  {
    var dp := PutState(db, state, p, expiresAt);
    var dq := PutState(db, state, q, expiresAt);
    assert dp.states - {state} == db.states - {state};
    assert dq.states - {state} == db.states - {state};
    assert Redeem(dp, state, now) == Redeem(dq, state, now);
  }

  lemma GoogleCallbackKeepsConsistent(db: Db, state: string, now: Timestamp, ttlMinutes: int,
                                      exchange: TokenExchange, info: GoogleUserInfo, uid: string)
    requires Consistent(db) && FreshId(db, uid)
    ensures Consistent(GoogleCallback(db, state, now, ttlMinutes, exchange, info, uid).0)
  {
    if LiveState(db, state, now) {
      var db1 := DropState(db, state);
      assert Consistent(db1) && FreshId(db1, uid);
      LinkKeepsConsistent(db1, GoogleIdentity(info), uid, now, true);
    }
  }

  lemma GithubCallbackKeepsConsistent(db: Db, state: string, now: Timestamp, ttlMinutes: int, exchange: TokenExchange,
                                      user: GithubUser, emails: GithubEmails, uid: string, randomHex: string)
    requires Consistent(db) && FreshId(db, uid)
    ensures Consistent(GithubCallback(db, state, now, ttlMinutes, exchange, user, emails, uid, randomHex).0)
  {
    if LiveState(db, state, now) {
      var db1 := DropState(db, state);
      assert Consistent(db1) && FreshId(db1, uid);
      var email := GithubEmail(ListedEmails(emails), user.email, user.id, randomHex);
      LinkKeepsConsistent(db1, GithubIdentity(user, email), uid, now, false);
    }
  }

  /**
   * The GitHub callback's resolved email: the first primary verified
   * address, lower-cased, when it is non-empty; otherwise the profile's
   * email, lower-cased; otherwise the placeholder. A failed emails request
   * acts as an empty list.
   */
  lemma GithubEmailResolution(emails: GithubEmails, user: GithubUser, randomHex: string, k: nat)
    ensures emails.status != 200 ==>
      GithubEmail(ListedEmails(emails), user.email, user.id, randomHex)
      == if user.email.Some? && user.email.value != "" then Lower(user.email.value) else Placeholder(user.id, randomHex)
    ensures emails.status == 200 && k < |emails.entries| && IsPrimaryVerified(emails.entries[k])
            && emails.entries[k].address != ""
            && (forall j :: 0 <= j < k ==> !IsPrimaryVerified(emails.entries[j])) ==>
      GithubEmail(ListedEmails(emails), user.email, user.id, randomHex) == Lower(emails.entries[k].address)
  {
    if emails.status == 200 && k < |emails.entries| && IsPrimaryVerified(emails.entries[k])
       && emails.entries[k].address != ""
       && (forall j :: 0 <= j < k ==> !IsPrimaryVerified(emails.entries[j])) {
      FirstPrimaryVerifiedIsLeast(emails.entries, k);
    }
  }

  // ---------------------------------------------------------------------------
  // The session guard and the profile endpoints

  /** `get_current_user`: 401 for a bad or expired token (or an empty subject), 404 for a subject with no record. */
  function CurrentUser(db: Db, token: Token, now: Timestamp): (r: Result<User, HttpError>)
    ensures r.Err? ==> r.error == InvalidToken || r.error == UserNotFound
    ensures r == Err(InvalidToken) <==> VerifyToken(token, now).None? || token.sub == ""
    ensures r == Err(UserNotFound) <==> VerifyToken(token, now).Some? && token.sub != "" && token.sub !in db.users
    ensures r.Ok? ==> token.sub in db.users && r.value == db.users[token.sub]
  {
    var sub := VerifyToken(token, now);
    if sub.None? || sub.value == "" then Err(InvalidToken)
    else match GetUser(db, sub.value)
      case None => Err(UserNotFound)
      case Some(u) => Ok(u)
  }

  /** `GET /users/me`: the caller's record without its password hash. */
  function GetMyProfile(db: Db, token: Token, now: Timestamp): (r: Result<Profile, HttpError>)
    ensures CurrentUser(db, token, now).Err? ==> r == Err(CurrentUser(db, token, now).error)
    ensures CurrentUser(db, token, now).Ok? ==> r == Ok(ProfileOf(CurrentUser(db, token, now).value))
    ensures r.Ok? ==> token.sub in db.users && r.value == ProfileOf(db.users[token.sub])
  {
    match CurrentUser(db, token, now)
    case Err(e) => Err(e)
    case Ok(u) => Ok(ProfileOf(u))
  }

  /** `PUT /users/me`: merge the edit into the caller's record under the record's own id. */
  function UpdateMyProfile(db: Db, token: Token, now: Timestamp, p: ProfileUpdate): (Db, Result<Profile, HttpError>) {
    match CurrentUser(db, token, now)
    case Err(e) => (db, Err(e))
    case Ok(u) =>
      var merged := MergeUpdate(u, p, now);
      (SetUser(db, u.userId, merged), Ok(ProfileOf(merged)))
  }

  /** `DELETE /users/me`. */
  function DeleteMyAccount(db: Db, token: Token, now: Timestamp): (Db, Result<string, HttpError>) {
    match CurrentUser(db, token, now)
    case Err(e) => (db, Err(e))
    case Ok(u) => (DeleteUser(db, u.userId), Ok(AccountDeleted))
  }

  /** `GET /users/{user_id}`: the public view of any stored record. */
  function GetUserProfile(db: Db, token: Token, now: Timestamp, userId: string): (r: Result<PublicView, HttpError>)
    ensures CurrentUser(db, token, now).Err? ==> r == Err(CurrentUser(db, token, now).error)
    ensures CurrentUser(db, token, now).Ok? ==>
      r == if userId in db.users then Ok(PublicUserView(db.users[userId])) else Err(UserNotFound)
  {
    match CurrentUser(db, token, now)
    case Err(e) => Err(e)
    case Ok(_) => if userId in db.users then Ok(PublicUserView(db.users[userId])) else Err(UserNotFound)
  }

  /**
   * A profile edit rewrites only the caller's record, with exactly the
   * given fields and a new update time, and answers without the hash.
   */
  lemma UpdateMyProfileEffect(db: Db, token: Token, now: Timestamp, p: ProfileUpdate)
    requires Consistent(db)
    ensures var (d, r) := UpdateMyProfile(db, token, now, p);
      match CurrentUser(db, token, now)
      case Err(e) => d == db && r == Err(e)
      case Ok(u) =>
        && d.users == db.users[u.userId := MergeUpdate(u, p, now)]
        && d.emailToId == db.emailToId && d.allIds == db.allIds && d.states == db.states
        && r == Ok(ProfileOf(MergeUpdate(u, p, now)))
  {
    var g := CurrentUser(db, token, now);
    if g.Ok? {
      var u := g.value;
      assert db.emailToId[Lower(u.email)] == u.userId;
      assert db.emailToId[Lower(u.email) := u.userId] == db.emailToId;
    }
  }

  lemma AccountEndpointsKeepConsistent(db: Db, token: Token, now: Timestamp, p: ProfileUpdate)
    requires Consistent(db)
    ensures Consistent(UpdateMyProfile(db, token, now, p).0)
    ensures Consistent(DeleteMyAccount(db, token, now).0)
  {
    var g := CurrentUser(db, token, now);
    if g.Ok? {
      var u := g.value;
      RefreshKeepsConsistent(db, u.userId, MergeUpdate(u, p, now));
      DeleteKeepsConsistent(db, u.userId);
    }
  }

  /** A token that outlives its account gets 404 from the guard, not 401. */
  lemma DeletedAccountTokenGets404(db: Db, token: Token, now: Timestamp, later: Timestamp)
    requires Consistent(db) && CurrentUser(db, token, now).Ok? && VerifyToken(token, later).Some?
    ensures CurrentUser(DeleteMyAccount(db, token, now).0, token, later) == Err(UserNotFound)
  {
  }

  /** After an account is deleted its email can be registered again, in any casing. */
  lemma DeleteThenRegister(db: Db, token: Token, now: Timestamp, p: Registration, uid: string, hashed: string,
                           later: Timestamp, ttlMinutes: int)
    requires Consistent(db) && CurrentUser(db, token, now).Ok?
    requires Lower(p.email) == Lower(CurrentUser(db, token, now).value.email)
    ensures Register(DeleteMyAccount(db, token, now).0, p, uid, hashed, later, ttlMinutes).1.Ok?
  {
    var u := CurrentUser(db, token, now).value;
    DeleteFreesEmail(db, u.userId, p.email);
  }

  // ---------------------------------------------------------------------------
  // Search

  /** The comprehension that drops the caller's own view, keeping every other entry as often as it occurs, in order. */
  function ExcludeSelf(results: seq<PublicView>, selfId: string): (r: seq<PublicView>)
    ensures |r| <= |results|
    ensures forall v :: v in r <==> v in results && v.userId != selfId
    ensures forall v :: multiset(r)[v] == if v.userId != selfId then multiset(results)[v] else 0
  {
    if results == [] then []
    else
      assert results == [results[0]] + results[1..];
      if results[0].userId != selfId then [results[0]] + ExcludeSelf(results[1..], selfId)
      else ExcludeSelf(results[1..], selfId)
  }

  /** No entry of `s` occurs twice. */
  predicate NoRepeats<T(==)>(s: seq<T>) {
    forall j, k :: 0 <= j < k < |s| ==> s[j] != s[k]
  }

  /** Dropping the caller's view from a list without repeats leaves a list without repeats. */
  lemma {:induction false} ExcludeSelfNoRepeats(results: seq<PublicView>, selfId: string)
    requires NoRepeats(results)
    ensures NoRepeats(ExcludeSelf(results, selfId))
  {
    if results != [] {
      var rest := results[1..];
      assert NoRepeats(rest) by {
        forall j, k | 0 <= j < k < |rest| ensures rest[j] != rest[k] {
          assert rest[j] == results[j + 1] && rest[k] == results[k + 1];
        }
      }
      ExcludeSelfNoRepeats(rest, selfId);
      assert results[0] !in rest by {
        forall k | 0 <= k < |rest| ensures rest[k] != results[0] {
          assert rest[k] == results[k + 1];
        }
      }
    }
  }
}
