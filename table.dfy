/**
 * The `roles` table (roledistributor.py:51-54) and the meaning of each SQL
 * statement the bot runs against it, as functions on a sequence of rows.
 * The sequence keeps rows in insertion order, but SQLite promises no order
 * without `ORDER BY`: the order of query results is one possible order,
 * and no property proved here depends on it.
 *
 * The table has two text columns and a unique index on
 * `(username, LOWER(role))`: a username is compared exactly, a role by its
 * folded form. Statements whose WHERE clause says `role = ?` compare the
 * stored string exactly; only the mention lookup says `LOWER(role) = ?`.
 */
module Table {
  import opened Seqs
  import opened Text

  datatype Row = Row(username: string, role: string)

  /** Two rows with the same key collide in the unique index. */
  predicate SameKey(a: Row, b: Row) {
    a.username == b.username && Fold(a.role) == Fold(b.role)
  }

  /** The unique index `idx_username_role` holds. */
  ghost predicate Unique(rows: seq<Row>) {
    forall i, j :: 0 <= i < j < |rows| ==> !SameKey(rows[i], rows[j])
  }

  /** Some row has the key of `Row(u, r)`: `u` holds `r` up to the case of the role. */
  predicate Holds(rows: seq<Row>, u: string, r: string) {
    exists x :: x in rows && SameKey(x, Row(u, r))
  }

  // ------------------------------------------------------------ statements

  /**
   * `INSERT OR IGNORE INTO roles (username, role) VALUES (?, ?)`: the row is
   * appended unless the unique index already has its key.
   */
  function Insert(rows: seq<Row>, u: string, r: string): (rows': seq<Row>)
    ensures Unique(rows) ==> Unique(rows')
    ensures Holds(rows', u, r)
    ensures rows' == rows <==> Holds(rows, u, r)
    ensures forall x :: x in rows ==> x in rows'
    ensures forall x :: x in rows' ==> x in rows || x == Row(u, r)
  {
    if Holds(rows, u, r) then rows
    else
      var rows' := rows + [Row(u, r)];
      assert rows'[|rows|] == Row(u, r);
      assert Row(u, r) in rows' && SameKey(Row(u, r), Row(u, r));
      assert |rows'| != |rows|;
      rows'
  }

  /** `DELETE FROM roles WHERE username = ? AND role = ?`: role compared exactly. */
  function DeleteUserRole(rows: seq<Row>, u: string, r: string): seq<Row> {
    Filter(rows, (x: Row) => !(x.username == u && x.role == r))
  }

  /** `DELETE FROM roles WHERE role = ?`: role compared exactly. */
  function DeleteRole(rows: seq<Row>, r: string): seq<Row> {
    Filter(rows, (x: Row) => x.role != r)
  }

  // --------------------------------------------------------------- queries

  function RoleColumn(rows: seq<Row>): (roles: seq<string>)
    ensures |roles| == |rows|
    ensures forall r :: r in roles <==> exists x :: x in rows && x.role == r
  {
    if rows == [] then [] else [rows[0].role] + RoleColumn(rows[1..])
  }

  function UsernameColumn(rows: seq<Row>): (users: seq<string>)
    ensures |users| == |rows|
    ensures forall u :: u in users <==> exists x :: x in rows && x.username == u
  {
    if rows == [] then [] else [rows[0].username] + UsernameColumn(rows[1..])
  }

  /**
   * `SELECT DISTINCT role FROM roles`, and likewise `GROUP BY role`: every
   * role string in use, exactly once each, in an order SQLite leaves open.
   */
  function DistinctRoles(rows: seq<Row>): (roles: seq<string>)
    ensures NoDup(roles)
    ensures forall r :: r in roles <==> exists x :: x in rows && x.role == r
  {
    Dedup(RoleColumn(rows))
  }

  /** `SELECT username FROM roles WHERE role = ?` (the roster query, without DISTINCT). */
  function HoldersOf(rows: seq<Row>, role: string): (users: seq<string>)
    ensures forall u :: u in users <==> Row(u, role) in rows
  {
    UsernameColumn(Filter(rows, (x: Row) => x.role == role))
  }

  /** `SELECT DISTINCT username FROM roles WHERE role = ?`: exact-case lookup. */
  function UsersWithRole(rows: seq<Row>, role: string): (users: seq<string>)
    ensures NoDup(users)
    ensures forall u :: u in users <==> Row(u, role) in rows
  {
    Dedup(HoldersOf(rows, role))
  }

  /** `SELECT DISTINCT username FROM roles WHERE LOWER(role) = ?`: folded lookup. */
  function UsersWithFoldedRole(rows: seq<Row>, key: string): (users: seq<string>)
    ensures NoDup(users)
    ensures forall u :: u in users <==> exists x :: x in rows && x.username == u && Fold(x.role) == key
  {
    Dedup(UsernameColumn(Filter(rows, (x: Row) => Fold(x.role) == key)))
  }

  /** `SELECT role FROM roles WHERE username = ?`. */
  function RolesOf(rows: seq<Row>, u: string): (roles: seq<string>)
    ensures forall r :: r in roles <==> Row(u, r) in rows
  {
    RoleColumn(Filter(rows, (x: Row) => x.username == u))
  }

  /** One line of the `/roles` roster: a role, and its holders (their number is `|members|`). */
  datatype RosterEntry = RosterEntry(role: string, members: seq<string>)

  /**
   * `list_roles`: `SELECT role FROM roles GROUP BY role`, then for each role
   * `SELECT username FROM roles WHERE role = ?`.
   */
  function Roster(rows: seq<Row>): (r: seq<RosterEntry>)
    ensures |r| == |DistinctRoles(rows)|
    ensures forall k :: 0 <= k < |r| ==> r[k].role == DistinctRoles(rows)[k]
    ensures forall k, u :: 0 <= k < |r| ==> (u in r[k].members <==> Row(u, r[k].role) in rows)
  {
    var roles := DistinctRoles(rows);
    seq(|roles|, k requires 0 <= k < |roles| => RosterEntry(roles[k], HoldersOf(rows, roles[k])))
  }
}
