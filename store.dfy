/**
 * The SQLite database behind the bot as one mutable object: the `roles`
 * table, with the unique index as its invariant. Each method is one SQL
 * statement the bot issues.
 */
module RoleStore {
  import opened Table
  import opened TableFacts
  import opened Seqs
  import opened Text

  class Store {
    var rows: seq<Row>

    /** The unique index on `(username, LOWER(role))` holds. */
    ghost predicate Valid()
      reads this
    {
      Unique(rows)
    }

    /** A freshly created, empty table. */
    constructor ()
      ensures Valid() && rows == []
    {
      rows := [];
    }

    /** `INSERT OR IGNORE INTO roles (username, role) VALUES (?, ?)` */
    method InsertOrIgnore(u: string, r: string)
      requires Valid()
      modifies this
      ensures Valid()
      ensures rows == Insert(old(rows), u, r)
    {
      rows := Insert(rows, u, r);
    }

    /** `DELETE FROM roles WHERE username = ? AND role = ?` */
    method DeleteUserRole(u: string, r: string)
      requires Valid()
      modifies this
      ensures Valid()
      ensures rows == Table.DeleteUserRole(old(rows), u, r)
    {
      DeleteUserRoleEffect(rows, u, r);
      rows := Table.DeleteUserRole(rows, u, r);
    }

    /** `DELETE FROM roles WHERE role = ?` */
    method DeleteRole(r: string)
      requires Valid()
      modifies this
      ensures Valid()
      ensures rows == Table.DeleteRole(old(rows), r)
    {
      DeleteRoleEffect(rows, r);
      rows := Table.DeleteRole(rows, r);
    }

    // The queries below only read the table: each returns its `Table` function
    // and states the membership that function guarantees.

    /** `SELECT DISTINCT role FROM roles` */
    method SelectDistinctRoles() returns (roles: seq<string>)
      ensures roles == DistinctRoles(rows)
      ensures NoDup(roles)
      ensures forall r :: r in roles <==> exists x :: x in rows && x.role == r
    {
      roles := DistinctRoles(rows);
    }

    /** `SELECT username FROM roles WHERE role = ?` */
    method SelectHolders(role: string) returns (users: seq<string>)
      ensures users == HoldersOf(rows, role)
      ensures forall u :: u in users <==> Row(u, role) in rows
    {
      users := HoldersOf(rows, role);
    }

    /** `SELECT DISTINCT username FROM roles WHERE role = ?` */
    method SelectUsersWithRole(role: string) returns (users: seq<string>)
      ensures users == UsersWithRole(rows, role)
      ensures NoDup(users)
      ensures forall u :: u in users <==> Row(u, role) in rows
    {
      users := UsersWithRole(rows, role);
    }

    /** `SELECT DISTINCT username FROM roles WHERE LOWER(role) = ?` */
    method SelectUsersWithFoldedRole(key: string) returns (users: seq<string>)
      ensures users == UsersWithFoldedRole(rows, key)
      ensures NoDup(users)
      ensures forall u :: u in users <==> exists x :: x in rows && x.username == u && Fold(x.role) == key
    {
      users := UsersWithFoldedRole(rows, key);
    }

    /** `SELECT role FROM roles WHERE username = ?` */
    method SelectRolesOf(u: string) returns (roles: seq<string>)
      ensures roles == RolesOf(rows, u)
      ensures forall r :: r in roles <==> Row(u, r) in rows
    {
      roles := RolesOf(rows, u);
    }
  }
}
