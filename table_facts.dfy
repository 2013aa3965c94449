/**
 * Properties of the table semantics: what the unique index guarantees, what
 * each statement keeps and removes, and how exact and folded role matching
 * differ.
 */
module TableFacts {
  import opened Seqs
  import opened Text
  import opened Table

  /** Number of rows with username `u` whose role folds to `key`. */
  function KeyCount(rows: seq<Row>, u: string, key: string): nat {
    if rows == [] then 0
    else (if rows[0].username == u && Fold(rows[0].role) == key then 1 else 0) + KeyCount(rows[1..], u, key)
  }

  lemma UniqueTail(rows: seq<Row>)
    requires Unique(rows) && rows != []
    ensures Unique(rows[1..])
    ensures forall x :: x in rows[1..] ==> !SameKey(rows[0], x)
  {
    forall i, j | 0 <= i < j < |rows| - 1 ensures !SameKey(rows[1..][i], rows[1..][j]) {
      assert rows[1..][i] == rows[i + 1] && rows[1..][j] == rows[j + 1];
    }
    forall x | x in rows[1..] ensures !SameKey(rows[0], x) {
      var k :| 0 <= k < |rows| - 1 && rows[1..][k] == x;
      assert rows[k + 1] == x;
    }
  }

  lemma UniqueCons(x: Row, rows: seq<Row>)
    requires Unique(rows) && forall y :: y in rows ==> !SameKey(x, y)
    ensures Unique([x] + rows)
  {
    var r := [x] + rows;
    forall i, j | 0 <= i < j < |r| ensures !SameKey(r[i], r[j]) {
      assert r[j] == rows[j - 1];
      if i > 0 {
        assert r[i] == rows[i - 1];
      }
    }
  }

  /** Deleting rows never breaks the unique index. */
  lemma {:induction false} FilterUnique(rows: seq<Row>, keep: Row -> bool)
    requires Unique(rows)
    ensures Unique(Filter(rows, keep))
  {
    if rows != [] {
      UniqueTail(rows);
      FilterUnique(rows[1..], keep);
      if keep(rows[0]) {
        UniqueCons(rows[0], Filter(rows[1..], keep));
      }
    }
  }

  lemma {:induction false} KeyCountAtMostOne(rows: seq<Row>, u: string, key: string)
    requires Unique(rows)
    ensures KeyCount(rows, u, key) <= 1
  {
    if rows != [] {
      UniqueTail(rows);
      KeyCountAtMostOne(rows[1..], u, key);
      if rows[0].username == u && Fold(rows[0].role) == key {
        KeyCountZero(rows[1..], u, key);
      }
    }
  }

  lemma {:induction false} KeyCountZero(rows: seq<Row>, u: string, key: string)
    requires forall x :: x in rows ==> !(x.username == u && Fold(x.role) == key)
    ensures KeyCount(rows, u, key) == 0
  {
    if rows != [] {
      assert rows[0] in rows;
      KeyCountZero(rows[1..], u, key);
    }
  }

  lemma {:induction false} KeyCountPositive(rows: seq<Row>, u: string, r: string)
    requires Holds(rows, u, r)
    ensures KeyCount(rows, u, Fold(r)) >= 1
  {
    if !SameKey(rows[0], Row(u, r)) {
      var x :| x in rows && SameKey(x, Row(u, r));
      assert x in rows[1..];
      KeyCountPositive(rows[1..], u, r);
    }
  }

  /**
   * Inserting `(u, r1)` and then `(u, r2)` where the roles differ at most in
   * case (the same role included) leaves exactly one row for that user and
   * role, and the unique index still holds.
   */
  lemma InsertTwiceOneRow(rows: seq<Row>, u: string, r1: string, r2: string)
    requires Unique(rows)
    requires Fold(r1) == Fold(r2)
    ensures Insert(Insert(rows, u, r1), u, r2) == Insert(rows, u, r1)
    ensures Unique(Insert(rows, u, r1))
    ensures KeyCount(Insert(rows, u, r1), u, Fold(r1)) == 1
  {
    var once := Insert(rows, u, r1);
    var x :| x in once && SameKey(x, Row(u, r1));
    assert SameKey(x, Row(u, r2));
    KeyCountAtMostOne(once, u, Fold(r1));
    KeyCountPositive(once, u, r1);
  }

  /**
   * The exact-match delete removes the one row `(u, r)` and nothing else;
   * rows that differ only in the case of the role stay.
   */
  lemma DeleteUserRoleEffect(rows: seq<Row>, u: string, r: string)
    requires Unique(rows)
    ensures Unique(DeleteUserRole(rows, u, r))
    ensures forall x :: x in DeleteUserRole(rows, u, r) <==> x in rows && x != Row(u, r)
    ensures Row(u, r) !in rows ==> DeleteUserRole(rows, u, r) == rows
    ensures r !in RolesOf(DeleteUserRole(rows, u, r), u)
  {
    FilterUnique(rows, (x: Row) => !(x.username == u && x.role == r));
    if Row(u, r) !in rows {
      FilterKeepsAll(rows, (x: Row) => !(x.username == u && x.role == r));
    }
  }

  /**
   * Removing a role deletes every row with exactly that role string: no user
   * holds it under that spelling afterwards, and every row with a different
   * role string (another spelling of the same role included) stays.
   */
  lemma DeleteRoleEffect(rows: seq<Row>, r: string)
    requires Unique(rows)
    ensures Unique(DeleteRole(rows, r))
    ensures UsersWithRole(DeleteRole(rows, r), r) == []
    ensures forall x: Row :: x.role != r ==> (x in DeleteRole(rows, r) <==> x in rows)
  {
    FilterUnique(rows, (x: Row) => x.role != r);
    var left := DeleteRole(rows, r);
    FilterDropsAll(left, (x: Row) => x.role == r);
  }

  /**
   * Assigning a role the user did not hold in any spelling makes it one of
   * their roles; removing the exact pair afterwards takes it away again.
   */
  lemma AddThenRemove(rows: seq<Row>, u: string, r: string)
    requires Unique(rows) && !Holds(rows, u, r)
    ensures r in RolesOf(Insert(rows, u, r), u)
    ensures r !in RolesOf(DeleteUserRole(Insert(rows, u, r), u, r), u)
  {
    assert Insert(rows, u, r) == rows + [Row(u, r)];
    assert Row(u, r) in Insert(rows, u, r);
    DeleteUserRoleEffect(Insert(rows, u, r), u, r);
  }

  /** All pairs of a sequence of rows that share one username differ in the folded role. */
  lemma {:induction false} RoleColumnFoldDistinct(rows: seq<Row>, u: string)
    requires Unique(rows) && forall x :: x in rows ==> x.username == u
    ensures forall i, j :: 0 <= i < j < |RoleColumn(rows)| ==> Fold(RoleColumn(rows)[i]) != Fold(RoleColumn(rows)[j])
  {
    if rows != [] {
      UniqueTail(rows);
      assert forall x :: x in rows[1..] ==> x in rows;
      RoleColumnFoldDistinct(rows[1..], u);
      var c := RoleColumn(rows);
      assert c == [rows[0].role] + RoleColumn(rows[1..]);
      forall i, j | 0 <= i < j < |c| ensures Fold(c[i]) != Fold(c[j]) {
        if i == 0 {
          var r := c[j];
          assert r in RoleColumn(rows[1..]);
          var x :| x in rows[1..] && x.role == r;
          assert !SameKey(rows[0], x);
        } else {
          assert c[i] == RoleColumn(rows[1..])[i - 1] && c[j] == RoleColumn(rows[1..])[j - 1];
        }
      }
    }
  }

  /**
   * `/getrole` lists each role of the user once, and no two of the listed
   * roles differ only in case.
   */
  lemma RolesOfFoldDistinct(rows: seq<Row>, u: string)
    requires Unique(rows)
    ensures forall i, j :: 0 <= i < j < |RolesOf(rows, u)| ==> Fold(RolesOf(rows, u)[i]) != Fold(RolesOf(rows, u)[j])
  {
    FilterUnique(rows, (x: Row) => x.username == u);
    RoleColumnFoldDistinct(Filter(rows, (x: Row) => x.username == u), u);
  }

  /** All rows of a sequence carry one role string: their usernames are distinct. */
  lemma {:induction false} UsernameColumnDistinct(rows: seq<Row>, role: string)
    requires Unique(rows) && forall x :: x in rows ==> x.role == role
    ensures NoDup(UsernameColumn(rows))
  {
    if rows != [] {
      UniqueTail(rows);
      assert forall x :: x in rows[1..] ==> x in rows;
      UsernameColumnDistinct(rows[1..], role);
      var c := UsernameColumn(rows);
      assert c == [rows[0].username] + UsernameColumn(rows[1..]);
      forall i, j | 0 <= i < j < |c| ensures c[i] != c[j] {
        if i == 0 {
          var v := c[j];
          assert v in UsernameColumn(rows[1..]);
          var x :| x in rows[1..] && x.username == v;
          assert !SameKey(rows[0], x);
        } else {
          assert c[i] == UsernameColumn(rows[1..])[i - 1] && c[j] == UsernameColumn(rows[1..])[j - 1];
        }
      }
    }
  }

  /** Each roster line names each holder once, so its count is the number of holders. */
  lemma HoldersDistinct(rows: seq<Row>, role: string)
    requires Unique(rows)
    ensures NoDup(HoldersOf(rows, role))
  {
    FilterUnique(rows, (x: Row) => x.role == role);
    UsernameColumnDistinct(Filter(rows, (x: Row) => x.role == role), role);
  }

  /**
   * The folded lookup that mentions use finds every holder the exact lookup
   * finds, and it does not depend on the case of the token.
   */
  lemma ExactWithinFolded(rows: seq<Row>, r: string, token: string)
    requires Fold(token) == Fold(r)
    ensures forall u :: u in UsersWithRole(rows, r) ==> u in UsersWithFoldedRole(rows, Fold(token))
  {
  }

  /** With a row `("alice", "Dev")`, exact and folded matching part ways on "dev". */
  lemma ExactVersusFolded()
    ensures DeleteRole([Row("alice", "Dev")], "dev") == [Row("alice", "Dev")]
    ensures UsersWithRole([Row("alice", "Dev")], "dev") == []
    ensures UsersWithFoldedRole([Row("alice", "Dev")], Fold("dev")) == ["alice"]
  {
    var rows := [Row("alice", "Dev")];
    assert Fold("Dev") == "dev";
    assert Fold("dev") == "dev";
    FilterKeepsAll(rows, (x: Row) => x.role != "dev");
    var found := UsersWithFoldedRole(rows, "dev");
    assert "alice" in found;
    assert forall v :: v in found ==> v == "alice";
    assert |found| <= 1;
  }
}
