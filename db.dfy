/**
  The user table that app/utils/session.server.ts and app/routes/login.tsx reach
  through the database client (`db.user.findUnique`, `findFirst`, `create`).
  Usernames are unique (the table is keyed by them) and so are ids.
*/
module Db {
  import opened Wrappers

  type UserId = string

  /** What the table stores for one username. */
  datatype UserRow = UserRow(id: UserId, passwordHash: string)

  /** The `{ id, username }` projection handed back to the application. */
  datatype Identity = Identity(id: UserId, username: string)

  /** The user table: username to row. */
  type Users = map<string, UserRow>

  /** No two usernames share an id (the id is the table's primary key). */
  ghost predicate IdsUnique(users: Users)
  {
    forall u, v :: u in users && v in users && users[u].id == users[v].id ==> u == v
  }

  predicate IdInUse(users: Users, id: UserId)
  {
    exists u :: u in users && users[u].id == id
  }

  /** `findUnique({ where: { username } })` (and `findFirst`, which agrees on a unique column). */
  function FindByUsername(users: Users, username: string): (r: Option<UserRow>)
    ensures r.Some? <==> username in users
    ensures r.Some? ==> r.value == users[username]
  {
    if username in users then Some(users[username]) else None
  }

  /** `findUnique({ select: { id, username }, where: { id } })`. */
  function FindById(users: Users, id: UserId): (r: Option<Identity>)
    requires IdsUnique(users)
    ensures r.Some? <==> IdInUse(users, id)
    ensures r.Some? ==> r.value.id == id && r.value.username in users && users[r.value.username].id == id
  {
    if IdInUse(users, id) then
      var u :| u in users && users[u].id == id;
      Some(Identity(id, u))
    else None
  }

  /** Adding a row under a new username with an unused id keeps ids unique. */
  lemma AddKeepsIdsUnique(users: Users, username: string, row: UserRow)
    requires IdsUnique(users) && username !in users && !IdInUse(users, row.id)
    ensures IdsUnique(users[username := row])
  {
    var after := users[username := row];
    forall u, v | u in after && v in after && after[u].id == after[v].id
      ensures u == v
    {
      if u != username && v != username {
        assert users[u].id == users[v].id;
      }
    }
  }

  class UserStore {
    var users: Users

    ghost predicate Valid()
      reads this
    {
      IdsUnique(users)
    }

    constructor ()
      ensures Valid() && users == map[]
    {
      users := map[];
    }

    /**
      `db.user.create({ data: { passwordHash, username } })` with the id the
      database generates: fails (throws, here None) on a taken username or id,
      otherwise adds exactly that row.
    */
    method Create(username: string, passwordHash: string, id: UserId) returns (r: Option<Identity>)
      requires Valid()
      modifies this
      ensures Valid()
      ensures old(username in users || IdInUse(users, id)) ==> r.None? && users == old(users)
      ensures !old(username in users || IdInUse(users, id)) ==>
        r == Some(Identity(id, username)) && users == old(users)[username := UserRow(id, passwordHash)]
    {
      if username in users || IdInUse(users, id) {
        return None;
      }
      AddKeepsIdsUnique(users, username, UserRow(id, passwordHash));
      users := users[username := UserRow(id, passwordHash)];
      r := Some(Identity(id, username));
    }
  }
}
