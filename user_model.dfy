/**
 * The user records the controller and the middleware read and write. The Mongoose model
 * behind `User` (src/models/user.model.js) is not part of this model; it is replaced by an
 * in-memory store: a map from record id to record, plus the next id to hand out.
 */
module UserModel {
  import opened Wrappers

  /** Stands for the record's `_id`; the store hands ids out in increasing order. */
  type UserId = nat

  /**
   * A stored user record with the fields the controller writes; `fullName`, `email` and
   * `password` are whatever the request body held (possibly absent), `refreshToken` is
   * never set by the modelled code.
   */
  datatype User = User(
    fullName: Option<string>,
    email: Option<string>,
    password: Option<string>,
    username: string,
    avatar: string,
    coverImage: string,
    refreshToken: Option<string>)

  /** A record as `select("-password -refreshToken")` returns it: `_id` kept, the two secrets dropped. */
  datatype PublicUser = PublicUser(
    id: UserId,
    fullName: Option<string>,
    email: Option<string>,
    username: string,
    avatar: string,
    coverImage: string)

  function Sanitize(id: UserId, u: User): PublicUser {
    PublicUser(id, u.fullName, u.email, u.username, u.avatar, u.coverImage)
  }

  /** Two records look the same once sanitized exactly when they differ in their secrets only. */
  lemma SanitizeForgetsOnlySecrets(id: UserId, a: User, b: User)
    ensures Sanitize(id, a) == Sanitize(id, b)
        <==> a.(password := b.password, refreshToken := b.refreshToken) == b
  {
  }

  /** `User.findById(id).select("-password -refreshToken")`. */
  function FindById(users: map<UserId, User>, id: UserId): Option<PublicUser> {
    if id in users then Some(Sanitize(id, users[id])) else None
  }

  /**
   * Reading back after a store: the record just stored under a fresh id comes back sanitized,
   * and every other id reads as before.
   */
  lemma FindByIdAfterInsert(users: map<UserId, User>, id: UserId, u: User, k: UserId)
    requires id !in users
    ensures FindById(users[id := u], id) == Some(Sanitize(id, u))
    ensures k != id ==> FindById(users[id := u], k) == FindById(users, k)
    ensures FindById(users, id) == None
  {
  }

  /**
   * The filter `{ $or: [{ email }, { username }] }`. An absent filter value matches a
   * record that lacks the field (MongoDB's null matching); a stored username is always present.
   */
  predicate MatchesEither(u: User, email: Option<string>, username: Option<string>) {
    u.email == email || Some(u.username) == username
  }

  predicate HasMatch(users: map<UserId, User>, email: Option<string>, username: Option<string>) {
    exists id :: id in users && MatchesEither(users[id], email, username)
  }

  /** The invariant registration is meant to keep: no two records share an email or a username. */
  ghost predicate UniqueIdentities(users: map<UserId, User>) {
    forall a, b :: a in users && b in users && a != b ==>
      users[a].email != users[b].email && users[a].username != users[b].username
  }

  /** Storing a record under an id not yet used adds exactly that one entry. */
  lemma InsertFresh(users: map<UserId, User>, id: UserId, u: User)
    requires id !in users
    ensures var m := users[id := u];
      && m.Keys == users.Keys + {id} && |m| == |users| + 1
      && forall k :: k in users ==> m[k] == users[k]
  {
  }

  /** The `User` collection: the only state the modelled code shares between requests. */
  class UserStore {
    var users: map<UserId, User>
    var nextId: UserId

    /** Every stored id was handed out before `nextId`. */
    ghost predicate Valid()
      reads this
    {
      forall id :: id in users ==> id < nextId
    }

    constructor ()
      ensures Valid() && users == map[] && nextId == 0
    {
      users := map[];
      nextId := 0;
    }

    /** `User.findOne({ $or: [{ email }, { username }] })`: some matching record, if any exists. */
    method FindOne(email: Option<string>, username: Option<string>) returns (found: Option<User>)
      ensures found.Some? <==> HasMatch(users, email, username)
      ensures found.Some? ==> found.value in users.Values && MatchesEither(found.value, email, username)
    {
      if id :| id in users && MatchesEither(users[id], email, username) {
        found := Some(users[id]);
      } else {
        found := None;
      }
    }

    /** `User.create(u)`: stores `u` under a fresh id and returns that id. */
    method Create(u: User) returns (id: UserId)
      requires Valid()
      modifies this
      ensures Valid()
      ensures id == old(nextId) && id !in old(users) && nextId == old(nextId) + 1
      ensures users == old(users)[id := u]
    {
      id := nextId;
      users := users[id := u];
      nextId := nextId + 1;
    }
  }
}
