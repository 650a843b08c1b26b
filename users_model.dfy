/**
 * The credential store that the authentication core consults. The store's
 * own source is not part of this model: it is taken to be a table of rows
 * queried by equality on `username` (`findBy`) and extended by an insert
 * that generates a fresh `user_id` (`add`).
 */
module UsersModel {
  /** One row of the `users` table. `password` holds the bcrypt hash, never the plaintext. */
  datatype User = User(user_id: nat, username: string, password: string)

  /** Some row of `rows` carries `username`. */
  predicate Taken(rows: seq<User>, username: string) {
    exists u :: u in rows && u.username == username
  }

  /** No two rows carry the same username. */
  predicate UniqueUsernames(rows: seq<User>) {
    forall i, j :: 0 <= i < j < |rows| ==> rows[i].username != rows[j].username
  }

  /** `u` is the earliest row of `rows` whose username is `username`. */
  predicate IsFirstMatch(rows: seq<User>, username: string, u: User) {
    exists k :: 0 <= k < |rows| && rows[k] == u && u.username == username &&
      forall m :: 0 <= m < k ==> rows[m].username != username
  }

  /** `findBy({username})`: the rows with that username, in table order. */
  function FindBy(rows: seq<User>, username: string): (r: seq<User>)
    ensures |r| <= |rows|
    ensures forall u :: u in r <==> u in rows && u.username == username
    ensures r == [] <==> !Taken(rows, username)
  {
    if rows == [] then []
    else (if rows[0].username == username then [rows[0]] else []) + FindBy(rows[1..], username)
  }

  /** The head of a non-empty `FindBy` result is the first matching row of the table. */
  lemma {:induction false} FindByHeadIsFirstMatch(rows: seq<User>, username: string)
    requires FindBy(rows, username) != []
    ensures IsFirstMatch(rows, username, FindBy(rows, username)[0])
  {
    var k := FindByHeadIndex(rows, username);
  }

  /** The position in `rows` of the head of a non-empty `FindBy` result. */
  lemma {:induction false} FindByHeadIndex(rows: seq<User>, username: string) returns (k: nat)
    requires FindBy(rows, username) != []
    ensures k < |rows| && rows[k] == FindBy(rows, username)[0] && rows[k].username == username
    ensures forall m :: 0 <= m < k ==> rows[m].username != username
  {
    if rows[0].username == username {
      k := 0;
    } else {
      var rest := rows[1..];
      assert FindBy(rows, username) == FindBy(rest, username);
      var j := FindByHeadIndex(rest, username);
      k := j + 1;
      assert rows[k] == rest[j];
      forall m | 0 <= m < k ensures rows[m].username != username {
        if m > 0 { assert rows[m] == rest[m - 1]; }
      }
    }
  }

  /** With unique usernames a lookup finds at most one row. */
  lemma {:induction false} UniqueUsernamesSingleMatch(rows: seq<User>, username: string)
    requires UniqueUsernames(rows)
    ensures |FindBy(rows, username)| <= 1
  {
    if rows != [] {
      var rest := rows[1..];
      assert UniqueUsernames(rest) by {
        forall i, j | 0 <= i < j < |rest| ensures rest[i].username != rest[j].username {
          assert rest[i] == rows[i + 1] && rest[j] == rows[j + 1];
        }
      }
      UniqueUsernamesSingleMatch(rest, username);
      if rows[0].username == username {
        forall u | u in rest ensures u.username != username {
          var j :| 0 <= j < |rest| && rest[j] == u;
          assert rows[j + 1] == u;
        }
        assert FindBy(rest, username) == [];
      }
    }
  }

  /** The `users` table: its rows and the id the next insert will receive. */
  class UserStore {
    var rows: seq<User>
    var nextId: nat

    /** Ids are positive, distinct, and below the next id to be handed out. */
    ghost predicate Valid()
      reads this
    {
      0 < nextId &&
      (forall u :: u in rows ==> 0 < u.user_id < nextId) &&
      (forall i, j :: 0 <= i < j < |rows| ==> rows[i].user_id != rows[j].user_id)
    }

    constructor ()
      ensures Valid() && rows == [] && nextId == 1
    {
      rows := [];
      nextId := 1;
    }

    /** `add({username, password})`: appends a row with a fresh id and returns it. */
    method Add(username: string, password: string) returns (u: User)
      requires Valid()
      modifies this
      ensures Valid()
      ensures u == User(old(nextId), username, password)
      ensures forall v :: v in old(rows) ==> v.user_id != u.user_id
      ensures rows == old(rows) + [u] && nextId == old(nextId) + 1
    {
      u := User(nextId, username, password);
      assert forall v :: v in rows + [u] ==> v in rows || v == u;
      rows := rows + [u];
      nextId := nextId + 1;
    }
  }
}
