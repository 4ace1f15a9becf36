/**
 * The `users` table: `id INTEGER PRIMARY KEY AUTOINCREMENT, username TEXT
 * UNIQUE, password TEXT`. Rows are kept in insertion (rowid) order; the two
 * lookups of the screens are `SELECT * ... LIMIT 1`-style reads
 * (`getFirstAsync`), and TEXT comparison uses SQLite's default binary
 * collation, which is exact equality of the strings.
 */
module UsersTable {

  import opened Wrappers

  datatype UserRow = UserRow(id: int, username: string, password: string)

  /** The two WHERE clauses the screens use. */
  datatype Where =
    | ByName(name: string)                        // WHERE username = ?
    | ByCredentials(name: string, secret: string) // WHERE username = ? AND password = ?

  predicate Satisfies(row: UserRow, w: Where)
  {
    match w
    case ByName(n) => row.username == n
    case ByCredentials(n, p) => row.username == n && row.password == p
  }

  /** `getFirstAsync("SELECT * FROM users WHERE ...")`: the first row that
      satisfies the clause, or nothing. */
  function SelectFirst(rows: seq<UserRow>, w: Where): (r: Option<UserRow>)
  {
    if rows == [] then None
    else if Satisfies(rows[0], w) then Some(rows[0])
    else SelectFirst(rows[1..], w)
  }

  /** The query returns the first row that satisfies the clause, and
      nothing exactly when no row does. */
  lemma {:induction false} SelectFirstMeaning(rows: seq<UserRow>, w: Where)
    ensures SelectFirst(rows, w).Some? ==>
              exists i :: 0 <= i < |rows| && rows[i] == SelectFirst(rows, w).value && Satisfies(rows[i], w)
                          && forall j :: 0 <= j < i ==> !Satisfies(rows[j], w)
    ensures SelectFirst(rows, w).None? <==> forall i :: 0 <= i < |rows| ==> !Satisfies(rows[i], w)
  {
    if rows != [] && !Satisfies(rows[0], w) {
      SelectFirstMeaning(rows[1..], w);
      assert forall i :: 1 <= i < |rows| ==> rows[1..][i - 1] == rows[i];
      if SelectFirst(rows, w).Some? {
        var i :| 0 <= i < |rows[1..]| && rows[1..][i] == SelectFirst(rows, w).value && Satisfies(rows[1..][i], w)
                 && forall j :: 0 <= j < i ==> !Satisfies(rows[1..][j], w);
        assert rows[i + 1] == rows[1..][i];
        assert forall j :: 1 <= j < i + 1 ==> !Satisfies(rows[j], w);
      }
    }
  }

  /** The UNIQUE constraint on `username`. */
  predicate UniqueNames(rows: seq<UserRow>)
  {
    forall i, j :: 0 <= i < j < |rows| ==> rows[i].username != rows[j].username
  }

  /** AUTOINCREMENT: ids grow with insertion order and never exceed the
      largest id ever handed out. */
  predicate IdsIncreasing(rows: seq<UserRow>, lastId: int)
  {
    && (forall i, j :: 0 <= i < j < |rows| ==> rows[i].id < rows[j].id)
    && (forall i :: 0 <= i < |rows| ==> 1 <= rows[i].id <= lastId)
  }

  /** The table read as a dictionary from user name to password. */
  function AccountsOf(rows: seq<UserRow>): (m: map<string, string>)
  {
    if rows == [] then map[]
    else AccountsOf(rows[..|rows| - 1])[rows[|rows| - 1].username := rows[|rows| - 1].password]
  }

  /** The names in the dictionary are exactly the names in the rows. */
  lemma {:induction false} AccountsOfNames(rows: seq<UserRow>)
    ensures forall n :: n in AccountsOf(rows) <==> exists i :: 0 <= i < |rows| && rows[i].username == n
  {
    if rows != [] {
      var init := rows[..|rows| - 1];
      AccountsOfNames(init);
      assert forall i :: 0 <= i < |init| ==> init[i] == rows[i];
    }
  }

  /** With unique names every row is the dictionary's entry for its name. */
  lemma {:induction false} AccountsOfRows(rows: seq<UserRow>)
    requires UniqueNames(rows)
    ensures forall i :: 0 <= i < |rows| ==>
              rows[i].username in AccountsOf(rows) && AccountsOf(rows)[rows[i].username] == rows[i].password
  {
    AccountsOfNames(rows);
    if rows != [] {
      var init := rows[..|rows| - 1];
      assert UniqueNames(init) by {
        assert forall i :: 0 <= i < |init| ==> init[i] == rows[i];
      }
      AccountsOfRows(init);
      forall i | 0 <= i < |rows| - 1
        ensures AccountsOf(rows)[rows[i].username] == rows[i].password
      {
        assert init[i] == rows[i];
        assert rows[i].username != rows[|rows| - 1].username;
      }
    }
  }

  /** Appending a row with a fresh name keeps the names unique and adds
      exactly that entry to the dictionary. */
  lemma AppendFreshName(rows: seq<UserRow>, row: UserRow)
    requires UniqueNames(rows)
    requires row.username !in AccountsOf(rows)
    ensures UniqueNames(rows + [row])
    ensures AccountsOf(rows + [row]) == AccountsOf(rows)[row.username := row.password]
  {
    AccountsOfNames(rows);
    assert (rows + [row])[..|rows|] == rows;
  }

  /** Appending a row with the next id keeps the ids increasing. */
  lemma AppendNextId(rows: seq<UserRow>, lastId: int, row: UserRow)
    requires IdsIncreasing(rows, lastId) && lastId >= 0
    requires row.id == lastId + 1
    ensures IdsIncreasing(rows + [row], lastId + 1)
  {
  }

  /** The two queries agree with the dictionary view: the name query finds a
      row exactly when the name is registered, and the credentials query
      exactly when the name is registered with that very password. */
  lemma SelectAgreesWithAccounts(rows: seq<UserRow>, name: string, password: string)
    requires UniqueNames(rows)
    ensures SelectFirst(rows, ByName(name)).Some? <==> name in AccountsOf(rows)
    ensures SelectFirst(rows, ByCredentials(name, password)).Some? <==>
              name in AccountsOf(rows) && AccountsOf(rows)[name] == password
  {
    AccountsOfRows(rows);
    AccountsOfNames(rows);
    SelectFirstMeaning(rows, ByName(name));
    SelectFirstMeaning(rows, ByCredentials(name, password));
    var r := SelectFirst(rows, ByCredentials(name, password));
    if name in AccountsOf(rows) && AccountsOf(rows)[name] == password {
      var i :| 0 <= i < |rows| && rows[i].username == name;
      assert Satisfies(rows[i], ByCredentials(name, password));
    }
  }

  /** The `users` table as the screens share it. */
  class Table {
    var rows: seq<UserRow>
    /** The table's entry in `sqlite_sequence`: the largest id handed out. */
    var lastId: int

    ghost predicate Valid()
      reads this
    {
      UniqueNames(rows) && lastId >= 0 && IdsIncreasing(rows, lastId)
    }

    function Accounts(): (m: map<string, string>)
      reads this
    {
      AccountsOf(rows)
    }

    /** `CREATE TABLE IF NOT EXISTS users (...)` on a fresh database. */
    constructor ()
      ensures Valid() && rows == [] && lastId == 0 && Accounts() == map[]
    {
      rows := [];
      lastId := 0;
    }

    /** `INSERT INTO users (username, password) VALUES (?, ?)`: refused by
        the UNIQUE constraint when the name is taken; otherwise one row with
        the next AUTOINCREMENT id is appended. */
    method Insert(username: string, password: string) returns (inserted: bool)
      requires Valid()
      modifies this
      ensures Valid()
      ensures inserted <==> username !in old(Accounts())
      ensures inserted ==> rows == old(rows) + [UserRow(old(lastId) + 1, username, password)]
                           && lastId == old(lastId) + 1
                           && Accounts() == old(Accounts())[username := password]
      ensures !inserted ==> rows == old(rows) && lastId == old(lastId)
    {
      if username in AccountsOf(rows) {
        inserted := false;
      } else {
        var row := UserRow(lastId + 1, username, password);
        AppendFreshName(rows, row);
        AppendNextId(rows, lastId, row);
        rows := rows + [row];
        lastId := lastId + 1;
        inserted := true;
      }
    }
  }
}
