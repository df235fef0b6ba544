/**
 * The request handlers that change the store, written step by step over
 * the shared `Redis.Store` in the order the handlers issue their Redis
 * commands, each proved to perform the transition the matching
 * `Endpoints` function describes. Search is here too: it walks
 * `users:all`, whose order only the store knows.
 */
module Routes {
  import opened Wrappers
  import opened Text
  import opened Records
  import opened Auth
  import opened Http
  import opened Providers
  import Directory
  import Endpoints
  import Redis

  /** `POST /auth/register`. */
  method Register(r: Redis.Store, p: Endpoints.Registration, uid: string, hashed: string, now: Timestamp, ttlMinutes: int)
    returns (res: Result<TokenResponse, HttpError>)
    modifies r
    ensures (r.Snapshot(), res) == Endpoints.Register(old(r.Snapshot()), p, uid, hashed, now, ttlMinutes)
  {
    if Directory.GetUserByEmail(r.Snapshot(), p.email).Some? {
      return Err(EmailTaken);
    }
    var user := Endpoints.NewEmailUser(p, uid, hashed, now);
    r.SetUser(uid, user);
    r.AddToIndex(uid);
    var token := CreateAccessToken(uid, now, ttlMinutes);
    res := Ok(TokenResponse(token, "bearer", uid, p.displayName, Lower(p.email)));
  }

  /** `GET /auth/google/login` and `GET /auth/github/login`: `nonce` is the fresh random state. */
  method BeginOAuth(r: Redis.Store, provider: string, nonce: string, now: Timestamp) returns (res: LoginStart)
    modifies r
    ensures (r.Snapshot(), res) == Endpoints.BeginOAuth(old(r.Snapshot()), provider, nonce, now)
  {
    r.SetEx(nonce, Directory.StateTtl, provider, now);
    res := LoginStart(nonce);
  }

  /** Read the state; refuse when it is absent or expired, else delete it. */
  method RedeemState(r: Redis.Store, state: string, now: Timestamp) returns (ok: bool)
    modifies r
    ensures var redeemed := Endpoints.Redeem(old(r.Snapshot()), state, now);
      && ok == redeemed.Some?
      && r.Snapshot() == (if ok then redeemed.value else old(r.Snapshot()))
  {
    if !Directory.LiveState(r.Snapshot(), state, now) {
      return false;
    }
    r.DeleteState(state);
    ok := true;
  }

  /** The find-or-create step of the Google callback. */
  method LinkGoogle(r: Redis.Store, ident: Identity, uid: string, now: Timestamp) returns (id: string)
    modifies r
    ensures (r.Snapshot(), id) == Endpoints.LinkGoogle(old(r.Snapshot()), ident, uid, now)
  {
    var found := Directory.GetUserByEmail(r.Snapshot(), ident.email);
    if found.None? {
      r.SetUser(uid, Endpoints.NewOAuthUser(uid, ident, "google", now));
      r.AddToIndex(uid);
      return uid;
    }
    var user := found.value;
    if ident.avatarUrl != "" && user.avatarUrl != ident.avatarUrl {
      r.SetUser(user.userId, user.(avatarUrl := ident.avatarUrl, updatedAt := now));
    }
    id := user.userId;
  }

  /** The find-or-create step of the GitHub callback. */
  method LinkGithub(r: Redis.Store, ident: Identity, uid: string, now: Timestamp) returns (id: string)
    modifies r
    ensures (r.Snapshot(), id) == Endpoints.LinkGithub(old(r.Snapshot()), ident, uid, now)
  {
    var found := Directory.GetUserByEmail(r.Snapshot(), ident.email);
    if found.None? {
      r.SetUser(uid, Endpoints.NewOAuthUser(uid, ident, "github", now));
      r.AddToIndex(uid);
      return uid;
    }
    var user := found.value;
    r.SetUser(user.userId, user.(avatarUrl := ident.avatarUrl, updatedAt := now));
    id := user.userId;
  }

  /** `GET /auth/google/callback`, with the two provider answers as inputs. */
  method GoogleCallback(r: Redis.Store, state: string, now: Timestamp, ttlMinutes: int,
                        exchange: TokenExchange, info: GoogleUserInfo, uid: string)
    returns (res: Result<Redirect, HttpError>)
    modifies r
    ensures (r.Snapshot(), res) == Endpoints.GoogleCallback(old(r.Snapshot()), state, now, ttlMinutes, exchange, info, uid)
  {
    var ok := RedeemState(r, state, now);
    if !ok {
      return Err(InvalidState);
    }
    if exchange.status != 200 {
      return Err(GoogleExchangeFailed);
    }
    if exchange.accessToken.None? {
      return Err(InternalServerError);
    }
    if info.status != 200 {
      return Err(GoogleUserInfoFailed);
    }
    var id := LinkGoogle(r, GoogleIdentity(info), uid, now);
    res := Ok(Redirect(CreateAccessToken(id, now, ttlMinutes), "google"));
  }

  /** `GET /auth/github/callback`, with the three provider answers as inputs. */
  method GithubCallback(r: Redis.Store, state: string, now: Timestamp, ttlMinutes: int, exchange: TokenExchange,
                        user: GithubUser, emails: GithubEmails, uid: string, randomHex: string)
    returns (res: Result<Redirect, HttpError>)
    modifies r
    ensures (r.Snapshot(), res)
         == Endpoints.GithubCallback(old(r.Snapshot()), state, now, ttlMinutes, exchange, user, emails, uid, randomHex)
  {
    var ok := RedeemState(r, state, now);
    if !ok {
      return Err(InvalidState);
    }
    if exchange.status != 200 {
      return Err(GithubExchangeFailed);
    }
    if exchange.accessToken.None? || exchange.accessToken.value == "" {
      return Err(GithubNoAccessToken);
    }
    var email := ResolveGithubEmail(ListedEmails(emails), user.email, user.id, randomHex);
    var id := LinkGithub(r, GithubIdentity(user, email), uid, now);
    res := Ok(Redirect(CreateAccessToken(id, now, ttlMinutes), "github"));
  }

  /** `PUT /users/me`: copy the caller's record, overwrite the given fields one by one, store it. */
  method UpdateMyProfile(r: Redis.Store, token: Token, now: Timestamp, p: ProfileUpdate)
    returns (res: Result<Profile, HttpError>)
    modifies r
    ensures (r.Snapshot(), res) == Endpoints.UpdateMyProfile(old(r.Snapshot()), token, now, p)
  {
    var current := Endpoints.CurrentUser(r.Snapshot(), token, now);
    if current.Err? {
      return Err(current.error);
    }
    var updated := current.value;
    if p.displayName.Some? {
      updated := updated.(displayName := p.displayName.value);
    }
    if p.bio.Some? {
      updated := updated.(bio := p.bio.value);
    }
    if p.interests.Some? {
      updated := updated.(interests := p.interests.value);
    }
    if p.avatarUrl.Some? {
      updated := updated.(avatarUrl := p.avatarUrl.value);
    }
    if p.location.Some? {
      updated := updated.(location := p.location.value);
    }
    if p.website.Some? {
      updated := updated.(website := p.website.value);
    }
    updated := updated.(updatedAt := now);
    r.SetUser(current.value.userId, updated);
    res := Ok(ProfileOf(updated));
  }

  /** `DELETE /users/me`. */
  method DeleteMyAccount(r: Redis.Store, token: Token, now: Timestamp) returns (res: Result<string, HttpError>)
    modifies r
    ensures (r.Snapshot(), res) == Endpoints.DeleteMyAccount(old(r.Snapshot()), token, now)
  {
    var current := Endpoints.CurrentUser(r.Snapshot(), token, now);
    if current.Err? {
      return Err(current.error);
    }
    r.DeleteUser(current.value.userId);
    res := Ok(AccountDeleted);
  }

  /**
   * `GET /users/search/query`: after the guard, a query shorter than two
   * characters once stripped is refused; otherwise the stripped query is
   * searched and the caller's own view dropped. Every result is the public
   * view of a hit other than the caller, and on a consistent store every
   * such hit is among the results, none of them twice.
   */
  method SearchUsers(r: Redis.Store, token: Token, now: Timestamp, q: string)
    returns (res: Result<SearchResponse, HttpError>)
    ensures var current := Endpoints.CurrentUser(r.Snapshot(), token, now);
      && (current.Err? ==> res == Err(current.error))
      && (current.Ok? && |Strip(q)| < 2 ==> res == Err(QueryTooShort))
      && (current.Ok? && |Strip(q)| >= 2 ==> res.Ok?)
    ensures res.Ok? ==> res.value.count == |res.value.results|
    ensures res.Ok? ==> forall v :: v in res.value.results ==>
      && v.userId != Endpoints.CurrentUser(r.Snapshot(), token, now).value.userId
      && exists id :: id in Directory.SearchHits(r.Snapshot(), Strip(q)) && v == PublicUserView(r.users[id])
    ensures res.Ok? && Directory.Consistent(r.Snapshot()) ==> Endpoints.NoRepeats(res.value.results)
    ensures res.Ok? && Directory.Consistent(r.Snapshot()) ==>
      forall id :: id in Directory.SearchHits(r.Snapshot(), Strip(q))
                   && id != Endpoints.CurrentUser(r.Snapshot(), token, now).value.userId ==>
        PublicUserView(r.users[id]) in res.value.results
  {
    var current := Endpoints.CurrentUser(r.Snapshot(), token, now);
    if current.Err? {
      return Err(current.error);
    }
    var query := Strip(q);
    if |query| < 2 {
      return Err(QueryTooShort);
    }
    var found, order := r.SearchUsers(query);
    var results := Endpoints.ExcludeSelf(found, current.value.userId);
    forall v | v in results
      ensures exists id :: id in Directory.SearchHits(r.Snapshot(), query) && v == PublicUserView(r.users[id])
    {
      var k :| 0 <= k < |found| && found[k] == v;
      assert order[k] in order;
    }
    if Directory.Consistent(r.Snapshot()) {
      forall id | id in Directory.SearchHits(r.Snapshot(), query) && id != current.value.userId
        ensures PublicUserView(r.users[id]) in results
      {
        var k :| 0 <= k < |order| && order[k] == id;
        assert found[k] == PublicUserView(r.users[id]);
      }
      DistinctIdsDistinctViews(r.Snapshot(), order, found);
      Endpoints.ExcludeSelfNoRepeats(found, current.value.userId);
    }
    res := Ok(SearchResponse(results, |results|));
  }

  /** On a consistent store each view names its own id, so the views of distinct ids are distinct. */
  lemma DistinctIdsDistinctViews(db: Directory.Db, order: seq<string>, found: seq<PublicView>)
    requires Directory.Consistent(db) && |order| == |found|
    requires forall k :: 0 <= k < |order| ==> order[k] in db.users && found[k] == PublicUserView(db.users[order[k]])
    requires forall j, k :: 0 <= j < k < |order| ==> order[j] != order[k]
    ensures Endpoints.NoRepeats(found)
  {
    forall j, k | 0 <= j < k < |found| ensures found[j] != found[k] {
      assert found[j].userId == order[j] && found[k].userId == order[k];
    }
  }
}
