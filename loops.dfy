/**
 * What the username loops of `setrole_select_user` and
 * `deleterole_role_callback` do to the table and to the lists they report.
 */
module LoopFacts {
  import opened Text
  import opened Table
  import opened TableFacts
  import opened Dialogue

  /**
   * The table as the bot keeps it: the unique index holds, every username
   * is stored lower-cased and non-empty, and no role name is empty.
   */
  ghost predicate WellFormed(rows: seq<Row>) {
    Unique(rows) && forall x :: x in rows ==> x.username != [] && Fold(x.username) == x.username && x.role != []
  }

  /** Some token, with its '@' removed and folded, is the username `u`. */
  ghost predicate Listed(u: string, tokens: seq<string>) {
    exists t :: t in tokens && StripAt(t) != [] && u == Fold(StripAt(t))
  }

  lemma ListedSnoc(u: string, tokens: seq<string>)
    requires tokens != []
    ensures Listed(u, tokens) <==>
      Listed(u, tokens[..|tokens| - 1]) || (StripAt(tokens[|tokens| - 1]) != [] && u == Fold(StripAt(tokens[|tokens| - 1])))
  {
    var init, last := tokens[..|tokens| - 1], tokens[|tokens| - 1];
    assert tokens == init + [last];
    if Listed(u, tokens) {
      var t :| t in tokens && StripAt(t) != [] && u == Fold(StripAt(t));
      assert t in init || t == last;
    }
    if Listed(u, init) {
      var t :| t in init && StripAt(t) != [] && u == Fold(StripAt(t));
      assert t in tokens;
    }
  }

  /** A folded, non-empty username may be stored. */
  lemma StoredName(u: string)
    requires u != []
    ensures Fold(u) != [] && Fold(Fold(u)) == Fold(u)
  {
    FoldIdempotent(u);
  }

  /** One more turn of either username loop, on the prefix `tokens[..i]`. */
  lemma LoopTurn(rows: seq<Row>, tokens: seq<string>, i: nat, role: string)
    requires i < |tokens|
    ensures var u := StripAt(tokens[i]);
      && AssignAll(rows, tokens[..i + 1], role) == (if u != [] then Insert(AssignAll(rows, tokens[..i], role), Fold(u), role) else AssignAll(rows, tokens[..i], role))
      && RevokeAll(rows, tokens[..i + 1], role) == (if u != [] then DeleteUserRole(RevokeAll(rows, tokens[..i], role), Fold(u), role) else RevokeAll(rows, tokens[..i], role))
      && Successes(tokens[..i + 1]) == (if u != [] then Successes(tokens[..i]) + ["@" + u] else Successes(tokens[..i]))
      && Failures(tokens[..i + 1]) == (if u != [] then Failures(tokens[..i]) else Failures(tokens[..i]) + [u])
  {
    assert tokens[..i + 1][..i] == tokens[..i];
  }

  /**
   * Assigning a role to a list of usernames keeps the table well formed,
   * keeps every row, adds only rows of that role for listed users, and
   * leaves every listed user holding the role.
   */
  lemma {:induction false} AssignAllEffect(rows: seq<Row>, tokens: seq<string>, role: string)
    requires WellFormed(rows) && role != []
    decreases |tokens|
    ensures WellFormed(AssignAll(rows, tokens, role))
    ensures forall x :: x in rows ==> x in AssignAll(rows, tokens, role)
    ensures forall x :: x in AssignAll(rows, tokens, role) ==> x in rows || (x.role == role && Listed(x.username, tokens))
    ensures forall u :: Listed(u, tokens) ==> Holds(AssignAll(rows, tokens, role), u, role)
  {
    if tokens != [] {
      var init, last := tokens[..|tokens| - 1], tokens[|tokens| - 1];
      AssignAllEffect(rows, init, role);
      var prev := AssignAll(rows, init, role);
      var u := StripAt(last);
      forall v ensures Listed(v, tokens) <==> Listed(v, init) || (u != [] && v == Fold(u)) {
        ListedSnoc(v, tokens);
      }
      if u != [] {
        StoredName(u);
      }
    }
  }

  /**
   * Revoking a role from a list of usernames removes exactly the rows of
   * that exact role string held by a listed user.
   */
  lemma {:induction false} RevokeAllEffect(rows: seq<Row>, tokens: seq<string>, role: string)
    requires WellFormed(rows)
    decreases |tokens|
    ensures WellFormed(RevokeAll(rows, tokens, role))
    ensures forall x :: x in RevokeAll(rows, tokens, role) <==> x in rows && !(x.role == role && Listed(x.username, tokens))
  {
    if tokens != [] {
      var init, last := tokens[..|tokens| - 1], tokens[|tokens| - 1];
      RevokeAllEffect(rows, init, role);
      var prev := RevokeAll(rows, init, role);
      var u := StripAt(last);
      forall v ensures Listed(v, tokens) <==> Listed(v, init) || (u != [] && v == Fold(u)) {
        ListedSnoc(v, tokens);
      }
      if u != [] {
        DeleteUserRoleEffect(prev, Fold(u), role);
      }
    }
  }

  /**
   * Every token is reported exactly once: as `@name` when something is left
   * after its '@', otherwise as a failure, which is then the empty string.
   */
  lemma {:induction false} ReportedOnce(tokens: seq<string>)
    decreases |tokens|
    ensures |Successes(tokens)| + |Failures(tokens)| == |tokens|
    ensures forall f :: f in Failures(tokens) ==> f == []
    ensures forall m :: m in Successes(tokens) <==> exists t :: t in tokens && StripAt(t) != [] && m == "@" + StripAt(t)
  {
    if tokens != [] {
      var init, last := tokens[..|tokens| - 1], tokens[|tokens| - 1];
      assert tokens == init + [last];
      ReportedOnce(init);
      forall m ensures m in Successes(tokens) <==> exists t :: t in tokens && StripAt(t) != [] && m == "@" + StripAt(t) {
        if exists t :: t in tokens && StripAt(t) != [] && m == "@" + StripAt(t) {
          var t :| t in tokens && StripAt(t) != [] && m == "@" + StripAt(t);
          assert t in init || t == last;
        }
        if m in Successes(init) {
          var t :| t in init && StripAt(t) != [] && m == "@" + StripAt(t);
          assert t in tokens;
        }
      }
    }
  }

  /** How many of the tokens are exactly `t`. */
  function Occurrences(ts: seq<string>, t: string): nat {
    if ts == [] then 0
    else Occurrences(ts[..|ts| - 1], t) + if ts[|ts| - 1] == t then 1 else 0
  }

  /** With tokens from `split()`, the failures are exactly the bare '@' tokens. */
  lemma FailuresAreBareAts(s: string)
    ensures |Failures(SplitWs(s))| == Occurrences(SplitWs(s), "@")
  {
    CountBareAts(SplitWs(s));
  }

  lemma {:induction false} CountBareAts(ts: seq<string>)
    requires forall k :: 0 <= k < |ts| ==> ts[k] != []
    decreases |ts|
    ensures |Failures(ts)| == Occurrences(ts, "@")
  {
    if ts != [] {
      var init := ts[..|ts| - 1];
      assert forall k :: 0 <= k < |init| ==> init[k] == ts[k];
      CountBareAts(init);
    }
  }
}
