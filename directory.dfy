/**
 * The key-value store seen as one value: the four keyspaces the backend
 * uses, its helper operations as functions on that value, and the
 * invariant that ties the record keyspace to its two indexes.
 */
module Directory {
  import opened Wrappers
  import opened Text
  import opened Records

  /** The time-to-live of an OAuth state nonce, in seconds. */
  const StateTtl := 600

  /** The value under `oauth_state:<nonce>`: the provider's name and when the key expires. */
  datatype OAuthState = OAuthState(provider: string, expiresAt: int)

  /**
   * `users` is `user:<id>`, `emailToId` is `email_to_id:<email>`, `allIds`
   * is the set `users:all` and `states` is `oauth_state:<nonce>`.
   */
  datatype Db = Db(
    users: map<string, User>,
    emailToId: map<string, string>,
    allIds: set<string>,
    states: map<string, OAuthState>)

  const EmptyDb := Db(map[], map[], {}, map[])

  /** `redis_get_user`. */
  function GetUser(db: Db, id: string): Option<User> {
    if id in db.users then Some(db.users[id]) else None
  }

  /** `redis_get_user_by_email`: through the index, where a missing or empty id means no user. */
  function GetUserByEmail(db: Db, email: string): Option<User> {
    var key := Lower(email);
    if key in db.emailToId && db.emailToId[key] != "" then GetUser(db, db.emailToId[key]) else None
  }

  /** `redis_set_user`: write the record, then point its lower-cased email at `id`. */
  function SetUser(db: Db, id: string, rec: User): Db {
    db.(users := db.users[id := rec], emailToId := db.emailToId[Lower(rec.email) := id])
  }

  /** `redis_add_to_index`. */
  function AddToIndex(db: Db, id: string): Db {
    db.(allIds := db.allIds + {id})
  }

  /**
   * `redis_delete_user`: drop the email entry of the stored record (when
   * there is one), the record itself and the directory membership.
   */
  function DeleteUser(db: Db, id: string): Db {
    var emails := if id in db.users then db.emailToId - {Lower(db.users[id].email)} else db.emailToId;
    db.(users := db.users - {id}, emailToId := emails, allIds := db.allIds - {id})
  }

  /** `setex oauth_state:<nonce>`: store the provider's name until `expiresAt`. */
  function PutState(db: Db, nonce: string, provider: string, expiresAt: int): Db {
    db.(states := db.states[nonce := OAuthState(provider, expiresAt)])
  }

  /** `delete oauth_state:<nonce>`. */
  function DropState(db: Db, nonce: string): Db {
    db.(states := db.states - {nonce})
  }

  /** A `get oauth_state:<nonce>` at time `now` returns a non-empty value. */
  predicate LiveState(db: Db, nonce: string, now: int) {
    nonce in db.states && now < db.states[nonce].expiresAt && db.states[nonce].provider != ""
  }

  /** The text that search scans: five fields joined by spaces, lower-cased. */
  function SearchText(u: User): string {
    Lower(SearchFields(u))
  }

  /** `query.lower() in searchable`. */
  predicate Matches(u: User, query: string) {
    Contains(SearchText(u), Lower(query))
  }

  /** The ids a search for `query` reports: members of `users:all` whose record exists and matches. */
  ghost function SearchHits(db: Db, query: string): set<string> {
    set id | id in db.allIds && id in db.users && Matches(db.users[id], query)
  }

  /**
   * The invariant the endpoints keep: `users:all` lists exactly the stored
   * records, each record sits under its own non-empty id and is reachable
   * through its lower-cased email, and every index entry leads to a record
   * with that email.
   */
  ghost predicate Consistent(db: Db) {
    && db.allIds == db.users.Keys
    && (forall id :: id in db.users ==>
          && id != ""
          && db.users[id].userId == id
          && Lower(db.users[id].email) in db.emailToId
          && db.emailToId[Lower(db.users[id].email)] == id)
    && (forall e :: e in db.emailToId ==>
          db.emailToId[e] in db.users && Lower(db.users[db.emailToId[e]].email) == e)
  }

  /** A new Redis database holds nothing, which is consistent. */
  lemma EmptyConsistent()
    ensures Consistent(EmptyDb)
  {
  }

  /** An id a new record may take: `uuid4` never repeats a live id. */
  ghost predicate FreshId(db: Db, id: string) {
    id != "" && id !in db.users
  }

  /** After `SetUser`, the record is found by its id and by every casing of its email. */
  lemma SetUserRoundTrip(db: Db, id: string, rec: User, email: string)
    requires id != "" && Lower(email) == Lower(rec.email)
    ensures GetUser(SetUser(db, id, rec), id) == Some(rec)
    ensures GetUserByEmail(SetUser(db, id, rec), email) == Some(rec)
  {
  }

  /** An index entry whose record is gone yields no user. */
  lemma DanglingIndexYieldsNone(db: Db, email: string)
    requires Lower(email) in db.emailToId && db.emailToId[Lower(email)] !in db.users
    ensures GetUserByEmail(db, email) == None
  {
  }

  /**
   * `DeleteUser` removes the record, its email entry and its membership,
   * and leaves every other record where it was.
   */
  lemma DeleteUserEffect(db: Db, id: string)
    ensures var d := DeleteUser(db, id);
      && GetUser(d, id) == None
      && id !in d.allIds
      && (id in db.users ==> Lower(db.users[id].email) !in d.emailToId)
      && (id in db.users ==> d.emailToId == db.emailToId - {Lower(db.users[id].email)})
      && d.allIds == db.allIds - {id}
      && (forall other :: other != id ==> GetUser(d, other) == GetUser(db, other))
      && d.states == db.states
  {
  }

  /** Deleting an id with no record changes nothing in a consistent store. */
  lemma DeleteUnknownIsNoOp(db: Db, id: string)
    requires Consistent(db) && id !in db.users
    ensures DeleteUser(db, id) == db
  {
    assert db.allIds - {id} == db.allIds;
    assert db.users - {id} == db.users;
  }

  /** In a consistent store the lookup by email misses exactly when the index has no entry. */
  lemma LookupInConsistent(db: Db, email: string)
    requires Consistent(db)
    ensures GetUserByEmail(db, email).None? <==> Lower(email) !in db.emailToId
    ensures GetUserByEmail(db, email).None? <==>
      forall id :: id in db.users ==> Lower(db.users[id].email) != Lower(email)
    ensures GetUserByEmail(db, email).Some? ==>
      var u := GetUserByEmail(db, email).value;
      && u.userId in db.users && db.users[u.userId] == u
      && db.emailToId[Lower(email)] == u.userId
      && Lower(u.email) == Lower(email)
  {
    var key := Lower(email);
    if key in db.emailToId {
      var id := db.emailToId[key];
      assert id in db.users;
      assert id != "";
    }
  }

  /** No two records share a lower-cased email. */
  lemma UniqueEmails(db: Db, a: string, b: string)
    requires Consistent(db) && a in db.users && b in db.users
    requires Lower(db.users[a].email) == Lower(db.users[b].email)
    ensures a == b
  {
  }

  /** Creating a record under a fresh id with an unused email keeps the store consistent. */
  lemma CreateKeepsConsistent(db: Db, id: string, rec: User)
    requires Consistent(db) && FreshId(db, id) && rec.userId == id
    requires Lower(rec.email) !in db.emailToId
    ensures Consistent(AddToIndex(SetUser(db, id, rec), id))
  {
    var d := AddToIndex(SetUser(db, id, rec), id);
    forall e | e in d.emailToId
      ensures d.emailToId[e] in d.users && Lower(d.users[d.emailToId[e]].email) == e
    {
      if e != Lower(rec.email) {
        assert db.emailToId[e] != id;
      }
    }
  }

  /** Rewriting a record in place with the same id and email keeps the store consistent. */
  lemma RefreshKeepsConsistent(db: Db, id: string, rec: User)
    requires Consistent(db) && id in db.users && rec.userId == id
    requires Lower(rec.email) == Lower(db.users[id].email)
    ensures Consistent(SetUser(db, id, rec))
  {
    var d := SetUser(db, id, rec);
    var key := Lower(rec.email);
    assert db.emailToId[key] == id;
    assert d.emailToId == db.emailToId;
    assert d.users.Keys == db.users.Keys;
    forall e | e in d.emailToId
      ensures d.emailToId[e] in d.users && Lower(d.users[d.emailToId[e]].email) == e
    {
      var other := db.emailToId[e];
      if other != id {
        assert d.users[other] == db.users[other];
      }
    }
    forall x | x in d.users
      ensures x != "" && d.users[x].userId == x
      ensures Lower(d.users[x].email) in d.emailToId && d.emailToId[Lower(d.users[x].email)] == x
    {
      if x != id {
        assert d.users[x] == db.users[x];
      }
    }
  }

  lemma DeleteKeepsConsistent(db: Db, id: string)
    requires Consistent(db)
    ensures Consistent(DeleteUser(db, id))
  {
    if id in db.users {
      var d := DeleteUser(db, id);
      var gone := Lower(db.users[id].email);
      forall e | e in d.emailToId
        ensures d.emailToId[e] in d.users && Lower(d.users[d.emailToId[e]].email) == e
      {
        assert e != gone;
        assert db.emailToId[e] != id;
      }
    } else {
      DeleteUnknownIsNoOp(db, id);
    }
  }

  /** After a delete in a consistent store no casing of the old email finds a user. */
  lemma DeleteFreesEmail(db: Db, id: string, email: string)
    requires Consistent(db) && id in db.users && Lower(email) == Lower(db.users[id].email)
    ensures GetUserByEmail(DeleteUser(db, id), email) == None
  {
  }

  /** The raw text that search lower-cases. */
  function SearchFields(u: User): string {
    u.displayName + " " + u.email + " " + u.bio + " " + u.interests + " " + u.location
  }

  /** Lower-casing works character by character, so it commutes with taking a block. */
  lemma {:induction false} LowerBlock(raw: string, off: nat, field: string)
    requires off + |field| <= |raw| && raw[off..off + |field|] == field
    ensures off + |field| <= |Lower(raw)| && Lower(raw)[off..off + |field|] == Lower(field)
  {
    var lf, lr := Lower(field), Lower(raw);
    forall j | 0 <= j < |field|
      ensures lr[off + j] == lf[j]
    {
      assert raw[off + j] == field[j];
    }
    assert lr[off..off + |field|] == lf;
  }

  /** An occurrence inside a block of `big` is an occurrence in `big`. */
  lemma OccursInBlock(big: string, off: nat, small: string, q: string, i: int)
    requires off + |small| <= |big| && big[off..off + |small|] == small && OccursAt(small, q, i)
    ensures OccursAt(big, q, off + i)
  {
    forall j | 0 <= j < |q|
      ensures big[off + i + j] == q[j]
    {
      assert big[off..off + |small|][i + j] == small[i + j];
      assert small[i..i + |q|][j] == q[j];
    }
    assert big[off + i..off + i + |q|] == q;
  }

  /** A block of `raw`, once lower-cased, can be found in the lower-cased `raw`. */
  lemma {:induction false} LowerBlockContained(raw: string, off: nat, field: string, q: string)
    requires off + |field| <= |raw| && raw[off..off + |field|] == field
    requires Contains(Lower(field), q)
    ensures Contains(Lower(raw), q)
  {
    var lf, lr := Lower(field), Lower(raw);
    ContainsIffOccurs(lf, q);
    var i :| OccursAt(lf, q, i);
    LowerBlock(raw, off, field);
    OccursInBlock(lr, off, lf, q, i);
    ContainsIffOccurs(lr, q);
  }

  /** The five fields search scans, in the order they are joined. */
  function SearchedFields(u: User): seq<string> {
    [u.displayName, u.email, u.bio, u.interests, u.location]
  }

  /** Where the `k`-th searched field starts inside the joined text. */
  function FieldOffset(u: User, k: nat): nat
    requires k < 5
  {
    var o1 := |u.displayName| + 1;
    var o2 := o1 + |u.email| + 1;
    var o3 := o2 + |u.bio| + 1;
    var o4 := o3 + |u.interests| + 1;
    [0, o1, o2, o3, o4][k]
  }

  /** The joined text holds each searched field at its offset. */
  lemma {:induction false} FieldPlaced(u: User, k: nat)
    requires k < 5
    ensures var off, field := FieldOffset(u, k), SearchedFields(u)[k];
      off + |field| <= |SearchFields(u)| && SearchFields(u)[off..off + |field|] == field
  {
    var sp := " ";
    var p1 := u.displayName;
    var p2 := p1 + sp + u.email;
    var p3 := p2 + sp + u.bio;
    var p4 := p3 + sp + u.interests;
    var raw := p4 + sp + u.location;
    assert SearchFields(u) == raw;
    if k == 4 {
      assert raw[|p4| + 1..] == u.location;
    } else {
      var pre := [p1, p2, p3, p4][k];
      assert raw[..|pre|] == pre by {
        assert raw[..|p4|] == p4;
        assert p4[..|p3|] == p3;
        assert p3[..|p2|] == p2;
        assert p2[..|p1|] == p1;
      }
      if k == 0 {
        assert pre == u.displayName;
      } else {
        assert pre[FieldOffset(u, k)..] == SearchedFields(u)[k];
      }
    }
  }

  /** A user matches every query whose lower-cased form occurs in one of the searched fields. */
  lemma {:induction false} FieldHitMatches(u: User, query: string, k: nat)
    requires k < 5 && Contains(Lower(SearchedFields(u)[k]), Lower(query))
    ensures Matches(u, query)
  {
    FieldPlaced(u, k);
    LowerBlockContained(SearchFields(u), FieldOffset(u, k), SearchedFields(u)[k], Lower(query));
  }

  /**
   * Matching runs over the joined text, so a query may straddle two
   * fields: the display name, a space and the email always match.
   */
  lemma {:induction false} SpanningQueryMatches(u: User)
    ensures Matches(u, u.displayName + " " + u.email)
  {
    var field := u.displayName + " " + u.email;
    var raw := SearchFields(u);
    assert raw == field + " " + u.bio + " " + u.interests + " " + u.location;
    assert raw[0..|field|] == field;
    assert Lower(field) <= Lower(field);
    LowerBlockContained(raw, 0, field, Lower(field));
  }
}
