/**
 * The Redis connection the handlers share: four keyspaces held as fields
 * and updated in place by the helper operations, each of which is proved
 * to perform the matching transition of the `Directory` model.
 */
module Redis {
  import opened Text
  import opened Records
  import Directory

  class Store {
    /** `user:<id>` */
    var users: map<string, User>
    /** `email_to_id:<lower-cased email>` */
    var emailToId: map<string, string>
    /** `users:all` */
    var allIds: set<string>
    /** `oauth_state:<nonce>` */
    var states: map<string, Directory.OAuthState>

    /** Everything the store holds, as one value. */
    function Snapshot(): Directory.Db
      reads this
    {
      Directory.Db(users, emailToId, allIds, states)
    }

    constructor ()
      ensures Snapshot() == Directory.EmptyDb && Directory.Consistent(Snapshot())
    {
      users, emailToId, allIds, states := map[], map[], {}, map[];
      Directory.EmptyConsistent();
    }

    /** `redis_set_user`: two writes, the record and then its email entry. */
    method SetUser(id: string, rec: User)
      modifies this
      ensures Snapshot() == Directory.SetUser(old(Snapshot()), id, rec)
    {
      users := users[id := rec];
      emailToId := emailToId[Lower(rec.email) := id];
    }

    /** `redis_delete_user`: read the record, drop its email entry, the record and the membership. */
    method DeleteUser(id: string)
      modifies this
      ensures Snapshot() == Directory.DeleteUser(old(Snapshot()), id)
    {
      var user := Directory.GetUser(Snapshot(), id);
      if user.Some? {
        emailToId := emailToId - {Lower(user.value.email)};
      }
      users := users - {id};
      allIds := allIds - {id};
    }

    /** `redis_add_to_index`: `sadd users:all id`. */
    method AddToIndex(id: string)
      modifies this
      ensures Snapshot() == Directory.AddToIndex(old(Snapshot()), id)
    {
      allIds := allIds + {id};
    }

    /** `setex oauth_state:<nonce> ttl provider` at time `now`. */
    method SetEx(nonce: string, ttl: int, provider: string, now: int)
      modifies this
      ensures Snapshot() == Directory.PutState(old(Snapshot()), nonce, provider, now + ttl)
    {
      states := states[nonce := Directory.OAuthState(provider, now + ttl)];
    }

    /** `delete oauth_state:<nonce>`. */
    method DeleteState(nonce: string)
      modifies this
      ensures Snapshot() == Directory.DropState(old(Snapshot()), nonce)
    {
      states := states - {nonce};
    }

    /**
     * `redis_search_users`: walk `users:all` in whatever order the set
     * yields and keep the public view of every stored record that matches.
     * `order` is the ids behind `results`, one per result and none twice;
     * together they are exactly the search hits.
     */
    method SearchUsers(query: string) returns (results: seq<PublicView>, ghost order: seq<string>)
      ensures |order| == |results|
      ensures forall k :: 0 <= k < |order| ==> order[k] in users && results[k] == PublicUserView(users[order[k]])
      ensures forall j, k :: 0 <= j < k < |order| ==> order[j] != order[k]
      ensures forall id :: id in order <==> id in Directory.SearchHits(Snapshot(), query)
    {
      var remaining := allIds;
      results, order := [], [];
      while remaining != {}
        invariant remaining <= allIds
        invariant |order| == |results|
        invariant forall k :: 0 <= k < |order| ==> order[k] in users && results[k] == PublicUserView(users[order[k]])
        invariant forall j, k :: 0 <= j < k < |order| ==> order[j] != order[k]
        invariant forall id :: id in order <==>
          id in allIds && id !in remaining && id in users && Directory.Matches(users[id], query)
        decreases remaining
      {
        var uid :| uid in remaining;
        remaining := remaining - {uid};
        if uid in users {
          var user := users[uid];
          if Directory.Matches(user, query) {
            results := results + [PublicUserView(user)];
            order := order + [uid];
          }
        }
      }
    }
  }
}
