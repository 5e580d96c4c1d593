/**
  The store behind the controller, reduced to the contract the controller
  relies on: a table of users keyed by id, with point lookup, keyed upsert,
  unconditional delete and a full scan in no particular order.
 */
module Repository {
  import opened Wrappers
  import opened Domain

  class UserRepository {
    /** The rows of the table, by primary key. */
    var rows: map<Uuid, User>

    /** Every row is stored under its own, non-null id. */
    ghost predicate Valid()
      reads this
    {
      forall k :: k in rows ==> rows[k].id == Some(k)
    }

    constructor ()
      ensures Valid() && rows == map[]
    {
      rows := map[];
    }

    /** Every row exactly once, in an unspecified order. */
    method FindAll() returns (users: seq<User>)
      requires Valid()
      ensures |users| == |rows|
      ensures forall u :: u in users <==> u in rows.Values
      ensures forall i, j :: 0 <= i < j < |users| ==> users[i] != users[j]
    {
      var table := rows;
      users := [];
      var remaining := table.Keys;
      ghost var visited: set<Uuid> := {};
      while remaining != {}
        invariant remaining == table.Keys - visited
        invariant Listed(table, users, visited)
        decreases remaining
      {
        var k :| k in remaining;
        ListOneMore(table, users, visited, k);
        users := users + [table[k]];
        remaining := remaining - {k};
        visited := visited + {k};
      }
      ListedAll(table, users);
    }

    /** The row stored under `id`, if any. */
    method FindById(id: Uuid) returns (found: Option<User>)
      requires Valid()
      ensures found.Some? <==> id in rows
      ensures found.Some? ==> found.value == rows[id] && found.value.id == Some(id)
    {
      found := if id in rows then Some(rows[id]) else None;
    }

    /** Upsert: the row under the user's id becomes `user`; the saved value
        is returned unchanged. */
    method Save(user: User) returns (saved: User)
      requires Valid() && user.id.Some?
      modifies this
      ensures Valid()
      ensures saved == user
      ensures rows == old(rows)[user.id.value := user]
    {
      rows := rows[user.id.value := user];
      saved := user;
    }

    /** Removes the row under `id`, whether or not there is one. */
    method DeleteById(id: Uuid)
      requires Valid()
      modifies this
      ensures Valid()
      ensures rows == old(rows) - {id}
    {
      rows := rows - {id};
    }
  }

  /** `users` lists the rows under the keys `visited`, each exactly once. */
  ghost predicate Listed(rows: map<Uuid, User>, users: seq<User>, visited: set<Uuid>) {
    && visited <= rows.Keys
    && |users| == |visited|
    && (forall i :: 0 <= i < |users| ==> users[i].id.Some? && users[i].id.value in visited && rows[users[i].id.value] == users[i])
    && (forall k :: k in visited ==> rows[k] in users)
    && (forall i, j :: 0 <= i < j < |users| ==> users[i] != users[j])
  }

  /** Listing one more row, under a key not yet visited, keeps `Listed`. */
  lemma ListOneMore(rows: map<Uuid, User>, users: seq<User>, visited: set<Uuid>, k: Uuid)
    requires forall key :: key in rows ==> rows[key].id == Some(key)
    requires Listed(rows, users, visited)
    requires k in rows && k !in visited
    ensures Listed(rows, users + [rows[k]], visited + {k})
  {
    var more := users + [rows[k]];
    forall i | 0 <= i < |users|
      ensures more[i] != rows[k]
    {
      assert users[i].id.value in visited;
    }
  }

  /** A list of the rows under every key holds exactly the stored users. */
  lemma ListedAll(rows: map<Uuid, User>, users: seq<User>)
    requires Listed(rows, users, rows.Keys)
    ensures |users| == |rows|
    ensures forall u :: u in users <==> u in rows.Values
    ensures forall i, j :: 0 <= i < j < |users| ==> users[i] != users[j]
  {
    forall u | u in rows.Values
      ensures u in users
    {
      var k :| k in rows && rows[k] == u;
    }
  }
}
