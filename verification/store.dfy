/**
 * The storage class of database.js as in-memory tables: a `users` table
 * and a `searches` table, each with an AUTOINCREMENT id. Each SQL
 * statement the class issues is modelled by a function on the rows; the
 * class `Database` holds the tables and updates them in place.
 */
module Store {
  import opened Wrappers

  /** A row of `users` (database.js:24-29). The password is opaque text. */
  datatype User = User(id: nat, username: string, password: string, displayName: string)

  /** A row of `searches` (database.js:33-40). */
  datatype Search = Search(id: nat, userId: nat, query: string, title: string, definition: string, timestamp: int)

  /** The rejections the class raises: the UNIQUE constraint on `username`, and `this.changes === 0`. */
  datatype StoreError = UsernameTaken | NoSuchSearch

  // ---------------------------------------------------------------------
  // The SQL statements, as functions on the rows
  // ---------------------------------------------------------------------

  /** `SELECT * FROM users WHERE username = ?` through `db.get`: the first matching row. */
  function UserNamed(users: seq<User>, name: string): (r: Option<User>)
    ensures r.Some? ==> r.value in users && r.value.username == name
    ensures r.None? ==> forall u :: u in users ==> u.username != name
  {
    if users == [] then None
    else if users[0].username == name then Some(users[0])
    else UserNamed(users[1..], name)
  }

  /** `SELECT * FROM users WHERE id = ?` through `db.get`: the first matching row. */
  function UserWithId(users: seq<User>, id: int): (r: Option<User>)
    ensures r.Some? ==> r.value in users && r.value.id == id
    ensures r.None? ==> forall u :: u in users ==> u.id != id
  {
    if users == [] then None
    else if users[0].id == id then Some(users[0])
    else UserWithId(users[1..], id)
  }

  /** `... FROM searches WHERE user_id = ?`, in table order. */
  function OfUser(rows: seq<Search>, userId: nat): (r: seq<Search>)
    ensures forall s :: s in r <==> s in rows && s.userId == userId
    ensures |r| <= |rows|
  {
    if rows == [] then []
    else if rows[0].userId == userId then [rows[0]] + OfUser(rows[1..], userId)
    else OfUser(rows[1..], userId)
  }

  /** `DELETE FROM searches WHERE user_id = ?`: the rows that survive, in table order. */
  function WithoutUser(rows: seq<Search>, userId: nat): (r: seq<Search>)
    ensures forall s :: s in r <==> s in rows && s.userId != userId
    ensures |r| <= |rows|
  {
    if rows == [] then []
    else if rows[0].userId == userId then WithoutUser(rows[1..], userId)
    else [rows[0]] + WithoutUser(rows[1..], userId)
  }

  /** `DELETE FROM searches WHERE id = ?`: the rows that survive, in table order. */
  function WithoutId(rows: seq<Search>, id: int): (r: seq<Search>)
    ensures forall s :: s in r <==> s in rows && s.id != id
    ensures |r| <= |rows|
  {
    if rows == [] then []
    else if rows[0].id == id then WithoutId(rows[1..], id)
    else [rows[0]] + WithoutId(rows[1..], id)
  }

  /** `UPDATE searches SET title = ? WHERE id = ?`. */
  function Retitled(rows: seq<Search>, id: int, title: string): (r: seq<Search>)
    ensures |r| == |rows|
    ensures forall k :: 0 <= k < |rows| && rows[k].id == id ==> r[k] == rows[k].(title := title)
    ensures forall k :: 0 <= k < |rows| && rows[k].id != id ==> r[k] == rows[k]
  {
    if rows == [] then []
    else [if rows[0].id == id then rows[0].(title := title) else rows[0]] + Retitled(rows[1..], id, title)
  }

  /** Some row has the id: the condition under which UPDATE and DELETE by id report a change. */
  predicate HasSearch(rows: seq<Search>, id: int)
  {
    exists s :: s in rows && s.id == id
  }

  /** The ids 1..c, all issued by an AUTOINCREMENT counter that has reached c. */
  ghost function IdsUpTo(c: nat): (r: set<nat>)
    ensures forall n :: n in r <==> 1 <= n <= c
  {
    if c == 0 then {} else IdsUpTo(c - 1) + {c}
  }

  /** Ids strictly increase along the table: what AUTOINCREMENT guarantees for rows appended in order. */
  ghost predicate IdsIncrease(rows: seq<Search>)
  {
    forall i, j :: 0 <= i < j < |rows| ==> rows[i].id < rows[j].id
  }

  /** `ORDER BY timestamp DESC`. */
  predicate NewestFirst(rows: seq<Search>)
  {
    forall i, j :: 0 <= i < j < |rows| ==> rows[i].timestamp >= rows[j].timestamp
  }

  function InsertNewestFirst(s: Search, rows: seq<Search>): (r: seq<Search>)
    requires NewestFirst(rows)
    ensures NewestFirst(r)
    ensures multiset(r) == multiset(rows) + multiset{s}
    ensures |r| == |rows| + 1
    ensures r[0] == s || (rows != [] && r[0] == rows[0])
  {
    if rows == [] || s.timestamp >= rows[0].timestamp then [s] + rows
    else
      assert rows == [rows[0]] + rows[1..];
      [rows[0]] + InsertNewestFirst(s, rows[1..])
  }

  /**
   * One order `ORDER BY timestamp DESC` may produce. SQL leaves the order of
   * equal timestamps open, and so do the contracts that use this function.
   */
  function SortNewestFirst(rows: seq<Search>): (r: seq<Search>)
    ensures NewestFirst(r)
    ensures multiset(r) == multiset(rows)
  {
    if rows == [] then []
    else
      assert rows == [rows[0]] + rows[1..];
      InsertNewestFirst(rows[0], SortNewestFirst(rows[1..]))
  }

  // ---------------------------------------------------------------------
  // Laws of the statements
  // ---------------------------------------------------------------------

  /** Clearing a user's searches twice is the same as clearing them once. */
  lemma {:induction false} ClearIdempotent(rows: seq<Search>, userId: nat)
    ensures WithoutUser(WithoutUser(rows, userId), userId) == WithoutUser(rows, userId)
  {
    if rows != [] {
      ClearIdempotent(rows[1..], userId);
    }
  }

  /** Clearing one user's searches leaves every other user's searches as they were, in the same order. */
  lemma {:induction false} ClearKeepsOtherUsers(rows: seq<Search>, userId: nat, other: nat)
    requires other != userId
    ensures OfUser(WithoutUser(rows, userId), other) == OfUser(rows, other)
  {
    if rows != [] {
      ClearKeepsOtherUsers(rows[1..], userId, other);
    }
  }

  /** With unique ids, deleting an existing id removes exactly one row. */
  lemma {:induction false} DeleteRemovesOne(rows: seq<Search>, id: int)
    requires IdsIncrease(rows)
    requires HasSearch(rows, id)
    ensures |WithoutId(rows, id)| == |rows| - 1
  {
    if rows[0].id == id {
      assert forall s :: s in rows[1..] ==> s.id != id;
      NotPresentKeepsAll(rows[1..], id);
    } else {
      var s :| s in rows && s.id == id;
      assert s in rows[1..];
      DeleteRemovesOne(rows[1..], id);
    }
  }

  lemma {:induction false} NotPresentKeepsAll(rows: seq<Search>, id: int)
    requires forall s :: s in rows ==> s.id != id
    ensures WithoutId(rows, id) == rows
  {
    if rows != [] {
      NotPresentKeepsAll(rows[1..], id);
    }
  }

  // ---------------------------------------------------------------------
  // The class
  // ---------------------------------------------------------------------

  class Database {
    var users: seq<User>
    var searches: seq<Search>
    /** The AUTOINCREMENT counters: the largest id ever issued in each table. */
    var lastUserId: nat
    var lastSearchId: nat
    /** Every search id ever issued, deleted or not. */
    ghost var issuedSearchIds: set<nat>

    ghost predicate Valid()
      reads this
    {
      && (forall i, j :: 0 <= i < j < |users| ==> users[i].id < users[j].id && users[i].username != users[j].username)
      && (forall u :: u in users ==> 1 <= u.id <= lastUserId)
      && IdsIncrease(searches)
      && (forall s :: s in searches ==> s.id in issuedSearchIds)
      && (forall n :: n in issuedSearchIds ==> 1 <= n <= lastSearchId)
    }

    /**
     * The tables as left by `initialize` (database.js:15-41) when it runs on
     * a database file. `users` is dropped and recreated, so it is empty and
     * its ids start again from 1. `searches` is only created if missing, so
     * it keeps the rows `kept` and the AUTOINCREMENT counter `keptCounter`
     * of an earlier run (both empty and zero for a fresh file).
     */
    constructor (kept: seq<Search>, keptCounter: nat)
      requires IdsIncrease(kept)
      requires forall s :: s in kept ==> 1 <= s.id <= keptCounter
      ensures Valid()
      ensures users == [] && lastUserId == 0
      ensures searches == kept && lastSearchId == keptCounter
      ensures issuedSearchIds == IdsUpTo(keptCounter)
    {
      users, searches := [], kept;
      lastUserId, lastSearchId := 0, keptCounter;
      issuedSearchIds := IdsUpTo(keptCounter);
    }

    /**
     * `registerUser` (database.js:44-57): fails when the username is taken;
     * otherwise appends one user, with the display name defaulting to the
     * username, and returns its new id.
     */
    method RegisterUser(username: string, password: string, displayName: Option<string>) returns (r: Result<nat, StoreError>)
      requires Valid()
      modifies this
      ensures Valid()
      ensures old(UserNamed(users, username)).Some? ==>
        r == Err(UsernameTaken) && users == old(users) && lastUserId == old(lastUserId)
      ensures old(UserNamed(users, username)).None? ==>
        && r == Ok(old(lastUserId) + 1)
        && users == old(users) + [User(r.value, username, password, displayName.GetOr(username))]
        && lastUserId == r.value
      ensures searches == old(searches) && lastSearchId == old(lastSearchId)
      ensures issuedSearchIds == old(issuedSearchIds)
    {
      if UserNamed(users, username).Some? {
        return Err(UsernameTaken);
      }
      var id := lastUserId + 1;
      users := users + [User(id, username, password, displayName.GetOr(username))];
      lastUserId := id;
      r := Ok(id);
    }

    /** `findUserByUsername` (database.js:60-74): the one user with that name, if any. */
    method FindUserByUsername(username: string) returns (r: Option<User>)
      requires Valid()
      ensures r.Some? ==> r.value in users && r.value.username == username
      ensures forall u :: u in users && u.username == username ==> r == Some(u)
      ensures r.None? ==> forall u :: u in users ==> u.username != username
    {
      r := UserNamed(users, username);
      if r.Some? {
        forall u | u in users && u.username == username ensures r == Some(u) {
          var i :| 0 <= i < |users| && users[i] == u;
          var j :| 0 <= j < |users| && users[j] == r.value;
          assert i == j;
        }
      }
    }

    /** `findUserById` (database.js:76-90): the one user with that id, if any. */
    method FindUserById(id: int) returns (r: Option<User>)
      requires Valid()
      ensures r.Some? ==> r.value in users && r.value.id == id
      ensures forall u :: u in users && u.id == id ==> r == Some(u)
      ensures r.None? ==> forall u :: u in users ==> u.id != id
    {
      r := UserWithId(users, id);
      if r.Some? {
        forall u | u in users && u.id == id ensures r == Some(u) {
          var i :| 0 <= i < |users| && users[i] == u;
          var j :| 0 <= j < |users| && users[j] == r.value;
          assert i == j;
        }
      }
    }

    /**
     * `insertSearch` (database.js:92-107): appends one row with a fresh id,
     * larger than every id issued before (deleted ones included), and
     * returns it. `timestamp` stands for `Date.now()`.
     */
    method InsertSearch(userId: nat, query: string, title: string, definition: string, timestamp: int) returns (id: nat)
      requires Valid()
      modifies this
      ensures Valid()
      ensures id == old(lastSearchId) + 1 && id !in old(issuedSearchIds)
      ensures forall n :: n in old(issuedSearchIds) ==> n < id
      ensures searches == old(searches) + [Search(id, userId, query, title, definition, timestamp)]
      ensures lastSearchId == id && issuedSearchIds == old(issuedSearchIds) + {id}
      ensures users == old(users) && lastUserId == old(lastUserId)
    {
      id := lastSearchId + 1;
      searches := searches + [Search(id, userId, query, title, definition, timestamp)];
      lastSearchId := id;
      issuedSearchIds := issuedSearchIds + {id};
    }

    /**
     * `getSearches` (database.js:109-127): exactly the user's rows, newest
     * first; no rows gives the empty sequence. Changes nothing.
     */
    method GetSearches(userId: nat) returns (rows: seq<Search>)
      requires Valid()
      ensures forall s :: s in rows <==> s in searches && s.userId == userId
      ensures multiset(rows) == multiset(OfUser(searches, userId))
      ensures NewestFirst(rows)
    {
      rows := SortNewestFirst(OfUser(searches, userId));
      forall s ensures s in rows <==> s in OfUser(searches, userId) {
        assert s in rows <==> s in multiset(rows);
      }
    }

    /**
     * `updateSearchTitle` (database.js:129-147): fails when no row has the
     * id; otherwise sets that row's title and nothing else.
     */
    method UpdateSearchTitle(id: int, title: string) returns (r: Result<(), StoreError>)
      requires Valid()
      modifies this
      ensures Valid()
      ensures old(HasSearch(searches, id)) ==> r == Ok(()) && searches == Retitled(old(searches), id, title)
      ensures !old(HasSearch(searches, id)) ==> r == Err(NoSuchSearch) && searches == old(searches)
      ensures users == old(users) && lastUserId == old(lastUserId)
      ensures lastSearchId == old(lastSearchId) && issuedSearchIds == old(issuedSearchIds)
    {
      if !HasSearch(searches, id) {
        return Err(NoSuchSearch);
      }
      RetitleKeepsIds(searches, id, title, issuedSearchIds);
      searches := Retitled(searches, id, title);
      r := Ok(());
    }

    /**
     * `deleteSearch` (database.js:149-167): fails when no row has the id;
     * otherwise removes exactly that row, keeping the others in order.
     */
    method DeleteSearch(id: int) returns (r: Result<(), StoreError>)
      requires Valid()
      modifies this
      ensures Valid()
      ensures old(HasSearch(searches, id)) ==>
        r == Ok(()) && searches == WithoutId(old(searches), id) && |searches| == |old(searches)| - 1
      ensures !old(HasSearch(searches, id)) ==> r == Err(NoSuchSearch) && searches == old(searches)
      ensures users == old(users) && lastUserId == old(lastUserId)
      ensures lastSearchId == old(lastSearchId) && issuedSearchIds == old(issuedSearchIds)
    {
      if !HasSearch(searches, id) {
        return Err(NoSuchSearch);
      }
      DeleteRemovesOne(searches, id);
      KeepIdsIncrease(searches, id);
      searches := WithoutId(searches, id);
      r := Ok(());
    }

    /**
     * `clearSearches` (database.js:169-183): removes all and only the
     * user's rows; succeeds when there are none.
     */
    method ClearSearches(userId: nat)
      requires Valid()
      modifies this
      ensures Valid()
      ensures searches == WithoutUser(old(searches), userId)
      ensures users == old(users) && lastUserId == old(lastUserId)
      ensures lastSearchId == old(lastSearchId) && issuedSearchIds == old(issuedSearchIds)
    {
      KeepUsersIdsIncrease(searches, userId);
      searches := WithoutUser(searches, userId);
    }
  }

  lemma {:induction false} KeepIdsIncrease(rows: seq<Search>, id: int)
    requires IdsIncrease(rows)
    ensures IdsIncrease(WithoutId(rows, id))
  {
    if rows != [] {
      KeepIdsIncrease(rows[1..], id);
    }
  }

  lemma {:induction false} KeepUsersIdsIncrease(rows: seq<Search>, userId: nat)
    requires IdsIncrease(rows)
    ensures IdsIncrease(WithoutUser(rows, userId))
  {
    if rows != [] {
      KeepUsersIdsIncrease(rows[1..], userId);
    }
  }

  /** Retitling changes no id: the ids still increase and are still among those issued. */
  lemma RetitleKeepsIds(rows: seq<Search>, id: int, title: string, issued: set<nat>)
    requires IdsIncrease(rows) && forall s :: s in rows ==> s.id in issued
    ensures IdsIncrease(Retitled(rows, id, title))
    ensures forall s :: s in Retitled(rows, id, title) ==> s.id in issued
  {
    var r := Retitled(rows, id, title);
    assert forall k :: 0 <= k < |r| ==> r[k].id == rows[k].id;
    forall s | s in r ensures s.id in issued {
      var k :| 0 <= k < |r| && r[k] == s;
      assert rows[k] in rows;
    }
  }
}
