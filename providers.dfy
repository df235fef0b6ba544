/**
 * What the two OAuth providers answer, taken as input values, and how each
 * callback turns those answers into one normalised identity. Fields that
 * the JSON may leave out are `Option`s; for GitHub's nullable fields
 * `None` also covers `null`.
 */
module Providers {
  import opened Wrappers
  import opened Text

  /** The answer of a provider's token endpoint: its status and the `access_token` field. */
  datatype TokenExchange = TokenExchange(status: int, accessToken: Option<string>)

  /** The answer of Google's userinfo endpoint. */
  datatype GoogleUserInfo = GoogleUserInfo(
    status: int, email: Option<string>, sub: Option<string>, name: Option<string>, picture: Option<string>)

  /** The JSON body of `GET /user` at GitHub (its status is not looked at). */
  datatype GithubUser = GithubUser(
    id: Option<nat>, login: Option<string>, name: Option<string>, email: Option<string>,
    avatarUrl: Option<string>, bio: Option<string>, location: Option<string>, blog: Option<string>)

  /** One element of the `GET /user/emails` list; `NotAnObject` is any element that is not a JSON object. */
  datatype EmailEntry = EmailObject(address: string, primary: bool, verified: bool) | NotAnObject

  datatype GithubEmails = GithubEmails(status: int, entries: seq<EmailEntry>)

  /** The provider-independent identity both callbacks link to a local account. */
  datatype Identity = Identity(
    email: string, oauthId: string, displayName: string, avatarUrl: string,
    bio: string, location: string, website: string)

  /** The identity read from Google's userinfo. */
  function GoogleIdentity(info: GoogleUserInfo): (ident: Identity)
    ensures ident.email == Lower(info.email.GetOr("")) && Lower(ident.email) == ident.email
    ensures ident.oauthId == info.sub.GetOr("")
    ensures ident.displayName == info.name.GetOr(BeforeAt(ident.email))
    ensures ident.avatarUrl == info.picture.GetOr("")
    ensures ident.bio == "" && ident.location == "" && ident.website == ""
  {
    var email := Lower(info.email.GetOr(""));
    LowerIdempotent(info.email.GetOr(""));
    Identity(email, info.sub.GetOr(""), info.name.GetOr(BeforeAt(email)), info.picture.GetOr(""), "", "", "")
  }

  predicate IsPrimaryVerified(e: EmailEntry) {
    e.EmailObject? && e.primary && e.verified
  }

  /** The lower-cased address of the first entry flagged both primary and verified. */
  function FirstPrimaryVerified(entries: seq<EmailEntry>): Option<string> {
    if entries == [] then None
    else if IsPrimaryVerified(entries[0]) then Some(Lower(entries[0].address))
    else FirstPrimaryVerified(entries[1..])
  }

  /** `FirstPrimaryVerified` picks the entry at the least index that qualifies. */
  lemma {:induction false} FirstPrimaryVerifiedIsLeast(entries: seq<EmailEntry>, k: nat)
    requires k < |entries| && IsPrimaryVerified(entries[k])
    requires forall j :: 0 <= j < k ==> !IsPrimaryVerified(entries[j])
    ensures FirstPrimaryVerified(entries) == Some(Lower(entries[k].address))
  {
    if k > 0 {
      FirstPrimaryVerifiedIsLeast(entries[1..], k - 1);
    }
  }

  /** When no entry qualifies there is no primary verified address. */
  lemma {:induction false} NoPrimaryVerified(entries: seq<EmailEntry>)
    requires forall j :: 0 <= j < |entries| ==> !IsPrimaryVerified(entries[j])
    ensures FirstPrimaryVerified(entries) == None
  {
    if entries != [] {
      NoPrimaryVerified(entries[1..]);
    }
  }

  /** A non-200 answer from the emails endpoint counts as an empty list. */
  function ListedEmails(emails: GithubEmails): seq<EmailEntry> {
    if emails.status == 200 then emails.entries else []
  }

  /** The address put in place of a missing email: `gh_<id>@github.noemail`. */
  function Placeholder(id: Option<nat>, randomHex: string): string {
    "gh_" + (if id.Some? then Decimal(id.value) else randomHex) + "@github.noemail"
  }

  /**
   * The email a GitHub login resolves to: the first primary verified
   * address, else the profile's own email, else the placeholder; each
   * candidate is tried only when the previous one came out empty.
   * `randomHex` is the `uuid4().hex` used when the profile has no id.
   */
  function GithubEmail(entries: seq<EmailEntry>, profileEmail: Option<string>, id: Option<nat>, randomHex: string): (e: string)
    ensures e != ""
  {
    var first := FirstPrimaryVerified(entries);
    if first.Some? && first.value != "" then first.value
    else if profileEmail.Some? && profileEmail.value != "" then Lower(profileEmail.value)
    else Placeholder(id, randomHex)
  }

  /** The loop of the GitHub callback: scan the list, stop at the first primary verified entry, then fall back. */
  method ResolveGithubEmail(entries: seq<EmailEntry>, profileEmail: Option<string>, id: Option<nat>, randomHex: string)
    returns (email: string)
    ensures email == GithubEmail(entries, profileEmail, id, randomHex)
  {
    email := "";
    var i := 0;
    while i < |entries|
      invariant 0 <= i <= |entries|
      invariant email == ""
      invariant FirstPrimaryVerified(entries[i..]) == FirstPrimaryVerified(entries)
    {
      var e := entries[i];
      if e.EmailObject? && e.primary && e.verified {
        email := Lower(e.address);
        break;
      }
      assert entries[i..][1..] == entries[i + 1..];
      i := i + 1;
    }
    if email == "" && profileEmail.Some? && profileEmail.value != "" {
      email := Lower(profileEmail.value);
    }
    if email == "" {
      email := Placeholder(id, randomHex);
    }
  }

  /** The identity read from GitHub's profile once the email is resolved. */
  function GithubIdentity(user: GithubUser, email: string): (ident: Identity)
    ensures ident.email == email
    ensures ident.oauthId == (if user.id.Some? then Decimal(user.id.value) else "")
    ensures ident.displayName ==
      if user.name.Some? && user.name.value != "" then user.name.value else user.login.GetOr(BeforeAt(email))
    ensures ident.avatarUrl == user.avatarUrl.GetOr("") && ident.bio == user.bio.GetOr("")
    ensures ident.location == user.location.GetOr("") && ident.website == user.blog.GetOr("")
  {
    var displayName :=
      if user.name.Some? && user.name.value != "" then user.name.value
      else user.login.GetOr(BeforeAt(email));
    Identity(email, if user.id.Some? then Decimal(user.id.value) else "", displayName,
             user.avatarUrl.GetOr(""), user.bio.GetOr(""), user.location.GetOr(""), user.blog.GetOr(""))
  }

  /** Two GitHub accounts with different numeric ids never share a subject id. */
  lemma GithubOAuthIdsDistinct(a: GithubUser, b: GithubUser, ea: string, eb: string)
    requires a.id.Some? && b.id.Some? && a.id != b.id
    ensures GithubIdentity(a, ea).oauthId != GithubIdentity(b, eb).oauthId
  {
    if Decimal(a.id.value) == Decimal(b.id.value) {
      DecimalInjective(a.id.value, b.id.value);
    }
  }
}
