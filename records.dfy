/**
 * The user record kept under `user:<id>`, the two projections of it that
 * responses carry, and the merge that a profile edit performs.
 */
module Records {
  import opened Wrappers

  /** Seconds since the epoch; the record's ISO-8601 rendering is not modelled. */
  type Timestamp = int

  datatype User = User(
    userId: string,
    email: string,
    passwordHash: string,
    displayName: string,
    bio: string,
    interests: string,
    avatarUrl: string,
    location: string,
    website: string,
    provider: string,
    oauthId: string,
    createdAt: Timestamp,
    updatedAt: Timestamp)

  /** What `/users/me` returns: every field of the record except the password hash. */
  datatype Profile = Profile(
    userId: string,
    email: string,
    displayName: string,
    bio: string,
    interests: string,
    avatarUrl: string,
    location: string,
    website: string,
    provider: string,
    oauthId: string,
    createdAt: Timestamp,
    updatedAt: Timestamp)

  /** What other users see: no email, no provider subject id, no password hash, no update time. */
  datatype PublicView = PublicView(
    userId: string,
    displayName: string,
    bio: string,
    interests: string,
    avatarUrl: string,
    location: string,
    website: string,
    provider: string,
    createdAt: Timestamp)

  /** The record with `password_hash` filtered out. */
  function ProfileOf(u: User): Profile {
    Profile(u.userId, u.email, u.displayName, u.bio, u.interests, u.avatarUrl,
            u.location, u.website, u.provider, u.oauthId, u.createdAt, u.updatedAt)
  }

  function PublicUserView(u: User): PublicView {
    PublicView(u.userId, u.displayName, u.bio, u.interests, u.avatarUrl,
               u.location, u.website, u.provider, u.createdAt)
  }

  /** The profile does not depend on the password hash, and it keeps everything else. */
  lemma ProfileHidesOnlyPasswordHash(u: User, v: User)
    ensures ProfileOf(u) == ProfileOf(v) <==> u.(passwordHash := "") == v.(passwordHash := "")
  {
  }

  /** The public view depends on none of the email, the provider subject id, the password hash and the update time. */
  lemma PublicViewHidesSecrets(u: User, email: string, oauthId: string, passwordHash: string, updatedAt: Timestamp)
    ensures PublicUserView(u.(email := email, oauthId := oauthId, passwordHash := passwordHash, updatedAt := updatedAt))
         == PublicUserView(u)
  {
  }

  /** The body of `PUT /users/me`: a field left out (`None`) keeps its value. */
  datatype ProfileUpdate = ProfileUpdate(
    displayName: Option<string>,
    bio: Option<string>,
    interests: Option<string>,
    avatarUrl: Option<string>,
    location: Option<string>,
    website: Option<string>)

  /**
   * The record after a profile edit at time `now`: each of the six editable
   * fields takes the update's value when one is given, `updatedAt` becomes
   * `now`, and the identity fields stay as they were.
   */
  function MergeUpdate(u: User, p: ProfileUpdate, now: Timestamp): (m: User)
    ensures m.userId == u.userId && m.email == u.email && m.passwordHash == u.passwordHash
    ensures m.provider == u.provider && m.oauthId == u.oauthId && m.createdAt == u.createdAt
    ensures m.updatedAt == now
    ensures m.displayName == p.displayName.GetOr(u.displayName) && m.bio == p.bio.GetOr(u.bio)
    ensures m.interests == p.interests.GetOr(u.interests) && m.avatarUrl == p.avatarUrl.GetOr(u.avatarUrl)
    ensures m.location == p.location.GetOr(u.location) && m.website == p.website.GetOr(u.website)
  {
    u.(displayName := p.displayName.GetOr(u.displayName),
       bio := p.bio.GetOr(u.bio),
       interests := p.interests.GetOr(u.interests),
       avatarUrl := p.avatarUrl.GetOr(u.avatarUrl),
       location := p.location.GetOr(u.location),
       website := p.website.GetOr(u.website),
       updatedAt := now)
  }

  /** Applying the same edit twice is the same as applying it once. */
  lemma MergeUpdateIdempotent(u: User, p: ProfileUpdate, now: Timestamp)
    ensures MergeUpdate(MergeUpdate(u, p, now), p, now) == MergeUpdate(u, p, now)
  {
  }

  /** An edit that gives no field only moves the update time. */
  lemma EmptyUpdateOnlyTouchesTime(u: User, now: Timestamp)
    ensures MergeUpdate(u, ProfileUpdate(None, None, None, None, None, None), now) == u.(updatedAt := now)
  {
  }
}
