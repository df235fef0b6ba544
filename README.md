# Other Us backend: a verified model of the user directory

The Other Us backend (`backend/main.py`) is a FastAPI service. It keeps a user
directory in Redis and puts three logins on top of it: email and password,
Google OAuth and GitHub OAuth. This project models the directory and every
endpoint that reads or changes it, in Dafny, and proves what those endpoints
promise.

Redis is modelled through its four keyspaces:
- `user:<id>` holds the record;
- `email_to_id:<lower-cased email>` holds the id;
- `users:all` holds the set of ids;
- `oauth_state:<nonce>` holds the provider name and the key's expiry time.

## Layout

| file | module | what it holds |
|---|---|---|
| `wrappers.dfy` | `Wrappers` | `Option`, `Result` |
| `text.dfy` | `Text` | The Python string operations the code relies on: `str.lower` (ASCII), `str.strip`, `in` on strings, `split("@")[0]`, `str(int)` |
| `records.dfy` | `Records` | The user record, the `/users/me` profile (everything but the hash), the public view, the profile-edit merge |
| `auth.dfy` | `Auth` | `verify_password` over an abstract bcrypt comparison; the bearer token as subject, expiry and "signature checks", verified against an explicit clock |
| `http.dfy` | `Http` | Every `HTTPException` the endpoints raise (status, detail, whether it carries `WWW-Authenticate: Bearer`) and the response bodies |
| `directory.dfy` | `Directory` | The whole store as one value `Db`; the store helpers as functions on it; the `Consistent` invariant; the search predicate |
| `redis.dfy` | `Redis` | The class `Store`, with the four keyspaces as fields. Its helper methods update them in place and are proved to perform the `Directory` transitions. Its search loop walks `users:all` |
| `providers.dfy` | `Providers` | The Google and GitHub answers as input values. The identity each callback derives from them. GitHub's email-resolution loop |
| `endpoints.dfy` | `Endpoints` | Every endpoint as a function from the store value to the new store value and the response, plus the lemmas that relate endpoints to each other |
| `routes.dfy` | `Routes` | The handlers that change the store, written step by step over a `Redis.Store`. Each is proved equal to its `Endpoints` function. `search_users` also lives here |

An imperative handler ensures
`(r.Snapshot(), res) == Endpoints.X(old(r.Snapshot()), …)`. Everything proved
about `Endpoints.X` therefore holds for the handler.

Randomness, the clock and the outside world are inputs:
- the new account id (`uuid4`) is `uid`;
- the state nonce (`token_urlsafe`) is `nonce`;
- the GitHub placeholder's `uuid4().hex` is `randomHex`;
- the time is `now`, in seconds;
- the provider responses are values of the `Providers` datatypes;
- the bcrypt hash of a new password is `hashed`, and bcrypt's comparison is the function `checkpw`.

A fresh `uuid4` never collides with a live id. Lemmas that need this take
`Directory.FreshId` as a hypothesis.

`Directory.Consistent` links `users:all`, the `user:` records and the `email_to_id:` entries. An empty database is consistent (`Directory.EmptyConsistent`), and `Redis.Store`'s constructor says so too. Every endpoint that writes keeps the invariant:
- starting a login (`Endpoints.BeginOAuthKeepsConsistent`);
- registration (`Endpoints.RegisterKeepsConsistent`);
- both callbacks;
- profile edits and account deletion.

So every store the endpoints reach from an empty database is consistent. Lemmas stated "on a consistent store" therefore hold for every reachable store.

Behaviour the model keeps exactly as the code has it, which a reader might not expect:
- The GitHub callback does not check the status of the `GET /user` response (main.py:388-395).
- On an existing account, the GitHub merge overwrites only `avatar_url` and `updated_at` (main.py:446-449). Bio, location and website are left as they were.
- Search also matches the email (main.py:138-144), although the endpoint's docstring lists only name, bio, interests and location (main.py:517).
- A token is accepted up to and including the second of its `exp` claim. python-jose rejects it only once `exp` is in the past.
- When Google's token answer has no `access_token`, the lookup raises `KeyError`, and the request fails with 500 after the nonce is deleted (main.py:296).
- The provider stored with a nonce is never compared with the callback's provider. A nonce issued for Google is accepted by the GitHub callback (`Endpoints.StoredProviderIgnored`).

## Model

| member | source | states |
|---|---|---|
| `Text.Lower` | backend/main.py:113 | Lower-casing keeps the length and maps every character on its own, as `str.lower` does for ASCII |
| `Text.LowerIdempotent` | backend/main.py:118 | Lower-casing twice is lower-casing once. So a lower-cased email and any casing of it reach the same `email_to_id` key |
| `Text.Strip` | backend/main.py:518-520 | `q.strip()` is a contiguous block of `q`. What it removed on both sides is whitespace, and the result neither starts nor ends with whitespace |
| `Text.ContainsIffOccurs` | backend/main.py:145 | Python's `query in text` holds exactly when the query occurs at some index of the text |
| `Text.BeforeAt` | backend/main.py:303 | `email.split("@")[0]` is the longest prefix without `@`, and it is followed by `@` when shorter than the email |
| `Text.Decimal` | backend/main.py:418 | `str(id)` is all decimal digits with no leading zero |
| `Text.DecimalRoundTrip` | backend/main.py:416 | Reading back the digits of `str(id)` gives `id` |
| `Text.DecimalInjective` | backend/main.py:418 | Different ids render differently |
| `Records.ProfileHidesOnlyPasswordHash` | backend/main.py:461 | The `/users/me` body is the record minus exactly `password_hash`: two records give the same body iff they agree outside the hash |
| `Records.PublicViewHidesSecrets` | backend/main.py:148-160 | The public view depends on none of `email`, `oauth_id`, `password_hash` and `updated_at` |
| `Records.MergeUpdate` | backend/main.py:470-484 | Each of the six editable fields takes the edit's value when one is given and keeps its own otherwise. `updated_at` becomes the edit's time. Id, email, hash, provider, `oauth_id` and `created_at` stay |
| `Records.MergeUpdateIdempotent` | backend/main.py:470-484 | Applying the same edit twice at the same time equals applying it once |
| `Records.EmptyUpdateOnlyTouchesTime` | backend/main.py:470-484 | An edit that gives no field changes only `updated_at` |
| `Auth.VerifyPassword` | backend/main.py:68-73 | Only a well-formed bcrypt hash ever verifies. For one, the answer is bcrypt's comparison |
| `Auth.EmptyHashNeverVerifies` | backend/main.py:70-73 | No password verifies against the empty hash that OAuth accounts store |
| `Auth.CreateAccessToken` | backend/main.py:163-169 | An issued token carries the given subject, checks under the server key, and expires `ttlMinutes` minutes after issue |
| `Auth.VerifyToken` | backend/main.py:170-175 | A subject comes back iff the signature checks and `exp` has not passed; it is the token's own subject |
| `Auth.IssuedTokenLifetime` | backend/main.py:163-175 | An issued token yields its subject up to its lifetime after issue, and nothing afterwards |
| `Auth.ForgedTokenRejected` | backend/main.py:172-175 | A token whose signature does not check yields no subject at any time |
| `Directory.SetUserRoundTrip` | backend/main.py:111-121 | After `redis_set_user(id, rec)`, the record is found under `id`, and under every casing of its email provided `id` is non-empty |
| `Directory.DanglingIndexYieldsNone` | backend/main.py:117-121 | An email entry whose record is gone yields `None` |
| `Directory.DeleteUserEffect` | backend/main.py:122-128 | Delete removes the record, its email entry and its `users:all` membership: the index and the id set lose exactly those keys. Every other record and every state is left alone |
| `Directory.DeleteUnknownIsNoOp` | backend/main.py:122-128 | On a consistent store, deleting an id with no record changes nothing |
| `Directory.LookupInConsistent` | backend/main.py:117-121 | On a consistent store, lookup by email misses exactly when the lower-cased address has no index entry, and exactly when no record has that address in any casing. A hit is the record under its own id, with that address |
| `Directory.UniqueEmails` | backend/main.py:111-113 | On a consistent store, two different records never share an address up to casing |
| `Directory.CreateKeepsConsistent` | backend/main.py:111-130 | A new record under a fresh id with an unused address, written and indexed, keeps the store consistent |
| `Directory.RefreshKeepsConsistent` | backend/main.py:111-113 | Rewriting a record under its own id with the same address keeps the store consistent |
| `Directory.EmptyConsistent` | backend/main.py:50-55 | A new, empty database is consistent: the invariant's base case |
| `Directory.DeleteKeepsConsistent` | backend/main.py:122-128 | Deleting any id keeps the store consistent |
| `Directory.DeleteFreesEmail` | backend/main.py:122-128 | On a consistent store, after an account is deleted its address is free again in every casing |
| `Directory.LowerBlockContained` | backend/main.py:144-145 | A query found in the lower-cased field is found in the lower-cased joined text that holds the field |
| `Directory.FieldPlaced` | backend/main.py:138-144 | The joined text holds each of the five fields, in order, at the offset that single-space separators give it |
| `Directory.FieldHitMatches` | backend/main.py:138-145 | A query found case-insensitively in any one of display name, email, bio, interests or location makes the user match |
| `Directory.SpanningQueryMatches` | backend/main.py:138-145 | Matching runs over the joined text, so a query spanning display name, space and email matches too |
| `Redis.Store.SetUser` | backend/main.py:111-113 | Writes the record, then its email entry; the store becomes `Directory.SetUser` of the old one |
| `Redis.Store.DeleteUser` | backend/main.py:122-128 | Reads the record, drops its email entry if found, then the record and the membership; the store becomes `Directory.DeleteUser` of the old one |
| `Redis.Store.AddToIndex` | backend/main.py:129-130 | Adds the id to `users:all` and changes nothing else |
| `Redis.Store.SetEx` | backend/main.py:255 | Stores the nonce with the provider and an expiry `ttl` seconds after `now`, replacing any earlier value |
| `Redis.Store.DeleteState` | backend/main.py:277 | Removes the nonce and changes nothing else |
| `Redis.Store.SearchUsers` | backend/main.py:131-147 | Returns one public view per hit, with no id twice. The ids behind the results are exactly the members of `users:all` that have a record and match the query |
| `Providers.GoogleIdentity` | backend/main.py:301-304 | The Google identity is the lower-cased email, `sub` as the subject id, the `picture`, and the `name` or else the part of the email before `@`. Bio, location and website are empty. Missing fields read as `""` |
| `Providers.FirstPrimaryVerifiedIsLeast` | backend/main.py:407-412 | The address chosen is the lower-cased one of the first entry that is both primary and verified |
| `Providers.NoPrimaryVerified` | backend/main.py:407-412 | With no primary verified entry, no address is chosen from the list |
| `Providers.GithubEmail` | backend/main.py:407-416 | The resolved GitHub email is never empty |
| `Providers.ResolveGithubEmail` | backend/main.py:407-416 | The loop with `break` and its two fallbacks compute exactly `GithubEmail`: the first primary verified address, else the profile email, else `gh_<id>@github.noemail` |
| `Providers.GithubIdentity` | backend/main.py:418-423 | The GitHub identity keeps the resolved email. Its `oauth_id` is `str(id)`, or empty when the profile has no id. The display name is a non-empty `name`, else `login`, else the part of the email before `@`. Avatar, bio, location and website are `avatar_url`, `bio`, `location` and `blog`, or `""` when missing |
| `Providers.GithubOAuthIdsDistinct` | backend/main.py:418 | GitHub accounts with different ids get different `oauth_id`s |
| `Endpoints.Login` | backend/main.py:234-239 | Every login failure is the 401 "Incorrect email or password" with a Bearer challenge |
| `Endpoints.RegisterRejectsDuplicate` | backend/main.py:196-198 | A taken email, in any casing, is refused with 400 and the store is unchanged |
| `Endpoints.RegisterCreatesAccount` | backend/main.py:199-226 | A free email gets a record under `uid` with lower-cased email, provider `email`, empty `oauth_id`, the given hash and `created_at == updated_at`. The id joins `users:all`, other records stay, and the token's subject is `uid`. The number of accounts grows by one exactly when `uid` is fresh, as a new `uuid4` is; a `uid` already in use has its account replaced |
| `Endpoints.RegisterKeepsConsistent` | backend/main.py:193-218 | Registration with a fresh id keeps the store consistent |
| `Endpoints.RegisterThenLogin` | backend/main.py:193-247 | After registering, logging in with any casing of the email succeeds iff bcrypt accepts the password against the stored hash. It returns the new id, name and lower-cased email |
| `Endpoints.PasswordlessAccountCannotLogIn` | backend/main.py:233-239 | An account whose stored hash is empty never logs in by password |
| `Endpoints.LoginSucceedsIff` | backend/main.py:233-247 | Login succeeds iff a record exists for the username's lower-cased email and its hash verifies. The response echoes the stored id, name and email, and the token names the stored id |
| `Endpoints.Redeem` | backend/main.py:274-277 | A state is redeemed iff it is live, and redeeming deletes it and nothing else |
| `Endpoints.BeginOAuthLifetime` | backend/main.py:254-255 | A nonce just issued is live for exactly the next 600 seconds, and issuing it touches no account |
| `Endpoints.BeginOAuthKeepsConsistent` | backend/main.py:255 | Storing a login nonce keeps the store consistent |
| `Endpoints.LinkCreatesAccount` | backend/main.py:306-326 | For an unknown email, either provider writes one record under `uid`, listed in `users:all`. It carries the provider's name and subject id, the identity's email, an empty hash and equal creation and update times. Other records and the nonces stay. The number of accounts grows by one exactly when `uid` is fresh; a `uid` already in use has its account replaced |
| `Endpoints.LinkGoogleExisting` | backend/main.py:327-332 | On a consistent store, for a known email, Google logs into that account. It changes that account's avatar and update time only when the new avatar is non-empty and differs, and changes nothing else, nonces included |
| `Endpoints.LinkGithubExisting` | backend/main.py:446-449 | On a consistent store, for a known email, GitHub logs into that account. It always overwrites that account's avatar (even with `""`) and update time, and changes nothing else, nonces included |
| `Endpoints.LinkKeepsConsistent` | backend/main.py:425-449 | Find-or-create keeps the store consistent for either provider |
| `Endpoints.OAuthCreatedAccountCannotLogIn` | backend/main.py:313 | An account created by an OAuth login can never log in by password |
| `Endpoints.CallbacksRejectDeadState` | backend/main.py:274-276 | A missing or expired state is refused with 400 by both callbacks (the GitHub copy is main.py:363-365), and nothing changes |
| `Endpoints.CallbacksConsumeState` | backend/main.py:363-366 | A live state is deleted by both callbacks whatever follows. Every later error leaves the accounts exactly as they were |
| `Endpoints.GoogleFailuresAbort` | backend/main.py:290-299 | A failed Google token exchange (400), a token answer without `access_token` (500) and a failed userinfo request (400) each abort after the nonce is deleted, with no account changed |
| `Endpoints.GithubFailuresAbort` | backend/main.py:379-385 | A failed GitHub token exchange and an absent or empty `access_token` each abort with 400 after the nonce is deleted, with no account changed |
| `Endpoints.StateReplayRejected` | backend/main.py:274-277 | Once a callback has run, replaying its state at either callback, at the same time or later, is refused and changes nothing |
| `Endpoints.IssuedStateWindow` | backend/main.py:255 | A Google or a GitHub callback within 600 seconds of the login start gets past the state check and consumes the nonce. From 600 seconds on it is refused and changes nothing |
| `Endpoints.StoredProviderIgnored` | backend/main.py:363-366 | The provider recorded with a live state does not affect either callback's outcome |
| `Endpoints.GoogleCallbackKeepsConsistent` | backend/main.py:274-334 | The Google callback with a fresh id keeps the store consistent on every path |
| `Endpoints.GithubCallbackKeepsConsistent` | backend/main.py:363-451 | The GitHub callback with a fresh id keeps the store consistent on every path |
| `Endpoints.GithubEmailResolution` | backend/main.py:405-416 | A failed emails request falls back to the lower-cased profile email, else the placeholder. A listed first primary verified entry with a non-empty address decides the email |
| `Endpoints.CurrentUser` | backend/main.py:176-190 | A bad or expired token, or an empty subject, gives 401 with a Bearer challenge. A valid subject with no record gives 404. Otherwise the stored record comes back. These are the only outcomes |
| `Endpoints.GetMyProfile` | backend/main.py:458-461 | After the guard, the caller's own record without its password hash. A guard failure is the guard's error |
| `Endpoints.GetUserProfile` | backend/main.py:499-509 | After the guard, the public view of the record under the id, or 404 when there is none |
| `Endpoints.UpdateMyProfileEffect` | backend/main.py:464-486 | On a consistent store, a failed guard changes nothing. Otherwise only the caller's record is rewritten, to the merge of the edit, and the response is that record without its hash; email entries, `users:all` and states stay |
| `Endpoints.AccountEndpointsKeepConsistent` | backend/main.py:464-496 | Profile edits and account deletion keep the store consistent |
| `Endpoints.DeletedAccountTokenGets404` | backend/main.py:187-189 | On a consistent store, a still-valid token of a deleted account gets 404 from the guard, not 401 |
| `Endpoints.DeleteThenRegister` | backend/main.py:489-496 | On a consistent store, after an account is deleted, its email can be registered again in any casing |
| `Endpoints.ExcludeSelf` | backend/main.py:522 | The filtered results are exactly the results whose `user_id` is not the caller's. Each such entry is kept as many times as it occurs, and the caller's entries not at all |
| `Endpoints.ExcludeSelfNoRepeats` | backend/main.py:522 | Filtering a list without repeated views leaves a list without repeated views |
| `Routes.DistinctIdsDistinctViews` | backend/main.py:132-146 | On a consistent store, the views built from distinct ids are distinct, because each view carries its own `user_id` |
| `Routes.Register` | backend/main.py:193-226 | The handler's lookup, write and index steps produce `Endpoints.Register`'s store and response |
| `Routes.BeginOAuth` | backend/main.py:344-345 | `setex` of the nonce for 600 seconds produces `Endpoints.BeginOAuth`'s store; the nonce is returned |
| `Routes.RedeemState` | backend/main.py:274-277 | Get, refuse when absent or expired, delete: it succeeds iff `Endpoints.Redeem` does and leaves the store as `Redeem` says, or unchanged |
| `Routes.LinkGoogle` | backend/main.py:306-332 | The find-or-create steps produce `Endpoints.LinkGoogle`'s store and account id |
| `Routes.LinkGithub` | backend/main.py:425-449 | The find-or-create steps produce `Endpoints.LinkGithub`'s store and account id |
| `Routes.GoogleCallback` | backend/main.py:267-337 | The handler's steps produce `Endpoints.GoogleCallback`'s store and response |
| `Routes.GithubCallback` | backend/main.py:356-451 | The handler's steps, including the email loop, produce `Endpoints.GithubCallback`'s store and response |
| `Routes.UpdateMyProfile` | backend/main.py:464-486 | Copying the record and overwriting the given fields one `if` at a time produces `Endpoints.UpdateMyProfile`'s store and response |
| `Routes.DeleteMyAccount` | backend/main.py:489-496 | Deleting the caller's record produces `Endpoints.DeleteMyAccount`'s store and the "Account deleted successfully" message |
| `Routes.SearchUsers` | backend/main.py:511-523 | A failed guard gives its error. A stripped query under 2 characters gives 400. Otherwise: every result is the public view of a hit for the stripped query and not the caller; on a consistent store every other hit is among the results and no view appears twice; `count` is the number of results |

## Left out

- The `now` of a request: the code reads the clock several times per request. The model uses one `now` per request, in whole seconds, and does not model the ISO-8601 rendering of `created_at` and `updated_at`.
- `Text.Lower`: only ASCII letters are lower-cased. Python's `str.lower` also folds non-ASCII letters, and that full Unicode case mapping is not modelled.
- bcrypt internals: `hash_password` (salt generation and hashing) is an input `hashed`, and `checkpw` is an abstract comparison. Only the format check and the `except` that turns errors into `false` are modelled.
- The JWT encoding, HS256 signing and JSON claims of python-jose are abstracted into `Auth.Token`. `genuine` stands for "the signature checks under the server key".
- The HTTP calls to Google and GitHub (httpx) and the authorization URLs built with `urlencode` are not modelled. The responses are inputs, and the redirect carries the token and the provider name.
- Redis TTL eviction is not modelled as a background process. An expired `oauth_state` key is modelled as one that `get` no longer returns, by comparing the stored expiry with `now`.
- Concurrency: each request runs atomically and alone. Races between concurrent requests, such as two registrations of one email or the same nonce redeemed twice at once, are not modelled. Neither are partial writes between `set` and `sadd`.
- JSON values other than strings in records and provider answers are not modelled. A GitHub `avatar_url` or `login` that is `null` becomes `""` or is taken as absent. A non-integer GitHub `id` is not modelled.
- Keys that provider answers may leave out are modelled as `Option` fields and read with the code's `.get` defaults. Missing keys that make the code raise are not modelled, except Google's missing `access_token` (500), and neither are bodies that are not JSON. Examples: a primary verified GitHub email entry without `"email"` makes the code raise `KeyError` at main.py:411 and the request fail with 500, but `EmailObject` always has an address; a `.json()` call on a body that is not JSON raises as well.
- The framework's handling of a missing `Authorization` header, request validation, CORS, environment loading and the `/health` endpoint are not modelled.
- `Endpoints.CurrentUser`: the `WWW-Authenticate: Bearer` header is a flag on the error, not a header map.
- `Routes.SearchUsers`: the order of the results is the order in which Redis yields `users:all`, which the model leaves unspecified. Completeness (every hit other than the caller is returned) is stated only for a consistent store: on such a store every record sits under its own id, so filtering by `user_id` drops exactly the caller.
- The frontend is not part of this model.
