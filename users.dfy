/**
 * The `users` table, held in memory as a sequence of rows, and the two
 * statements the handlers issue against it:
 *   SELECT * FROM users WHERE name = $1
 *   UPDATE users SET password_hash = $1 WHERE name = $2
 */
module Users {
  import opened Wrappers

  /** A row: `id`, `name` and the possibly NULL `password_hash` column. */
  datatype Row = Row(id: int, name: string, passwordHash: Option<string>)

  /** `!user.password_hash` is false: the column is neither NULL nor empty. */
  predicate HasHash(row: Row)
  {
    row.passwordHash.Some? && row.passwordHash.value != ""
  }

  /** `name = $1` holds of the row; a NULL parameter matches no row. */
  predicate Matches(row: Row, name: Option<string>)
  {
    name == Some(row.name)
  }

  /** No row of the table carries the name. */
  ghost predicate NoneNamed(users: seq<Row>, name: Option<string>)
  {
    forall i | 0 <= i < |users| :: !Matches(users[i], name)
  }

  /** Row `i` is the first row, in table order, that carries the name. */
  ghost predicate IsFirstNamed(users: seq<Row>, name: Option<string>, i: int)
  {
    0 <= i < |users| && Matches(users[i], name) &&
    forall j | 0 <= j < i :: !Matches(users[j], name)
  }

  /** What a query sends back: its rows, or the error the pool raised. */
  datatype QueryResult = Rows(rows: seq<Row>) | StoreError

  /**
   * The rows of the SELECT, in table order: exactly the rows that carry the
   * name, none when no row does, and the first such row first.
   */
  function Select(users: seq<Row>, name: Option<string>): (r: seq<Row>)
    ensures forall row :: row in r <==> row in users && Matches(row, name)
    ensures r == [] <==> NoneNamed(users, name)
    ensures r != [] ==> exists i :: IsFirstNamed(users, name, i)
    ensures forall i | IsFirstNamed(users, name, i) :: r != [] && r[0] == users[i]
  {
    if users == [] then []
    else if Matches(users[0], name) then
      assert IsFirstNamed(users, name, 0);
      [users[0]] + Select(users[1..], name)
    else
      var rest := Select(users[1..], name);
      assert rest != [] ==> exists i :: IsFirstNamed(users, name, i) by {
        if rest != [] {
          var i :| IsFirstNamed(users[1..], name, i);
          assert IsFirstNamed(users, name, i + 1);
        }
      }
      assert forall i | IsFirstNamed(users, name, i) :: IsFirstNamed(users[1..], name, i - 1);
      assert NoneNamed(users[1..], name) ==> NoneNamed(users, name) by {
        if NoneNamed(users[1..], name) {
          forall i | 0 <= i < |users| ensures !Matches(users[i], name) {
            if i > 0 { assert users[i] == users[1..][i - 1]; }
          }
        }
      }
      rest
  }

  /**
   * PostgreSQL text cannot hold U+0000: a parameter containing it is
   * refused by the server ("invalid byte sequence for encoding UTF8"), and
   * so is the query.
   */
  predicate Bindable(name: Option<string>)
  {
    name.None? || '\0' !in name.value
  }

  /** Running the SELECT on a store that may be unreachable. */
  function Query(users: seq<Row>, name: Option<string>, reachable: bool): QueryResult
  {
    if reachable && Bindable(name) then Rows(Select(users, name)) else StoreError
  }

  /**
   * The UPDATE: every row that carries the name gets the new hash; every
   * other row, and every other column, is left as it was.
   */
  function SetHash(users: seq<Row>, name: Option<string>, hash: string): (r: seq<Row>)
    ensures |r| == |users|
    ensures forall i | 0 <= i < |users| ::
      r[i] == if Matches(users[i], name) then users[i].(passwordHash := Some(hash)) else users[i]
  {
    if users == [] then []
    else
      var row := if Matches(users[0], name) then users[0].(passwordHash := Some(hash)) else users[0];
      [row] + SetHash(users[1..], name, hash)
  }

  /** The UPDATE changes no name, so a name's first row is the same row before and after. */
  lemma SetHashKeepsFirstNamed(users: seq<Row>, name: Option<string>, hash: string, i: int)
    requires IsFirstNamed(users, name, i)
    ensures IsFirstNamed(SetHash(users, name, hash), name, i)
    ensures SetHash(users, name, hash)[i] == users[i].(passwordHash := Some(hash))
  {
  }
}
