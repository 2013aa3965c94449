/**
 * The bot as the dispatcher runs it for one user in one chat: the role
 * store, the state each conversation keeps, and `context.user_data`.
 * Each update goes through group 0 (the commands and the six
 * conversations) and then, for a text message, through the mention
 * handler of group 1, which runs even when group 0 took the message or
 * raised on it.
 */
module Bot {
  import opened Wrappers
  import opened Text
  import opened Table
  import opened RoleStore
  import opened Mentions
  import opened Dialogue
  import opened LoopFacts
  import opened DialogueFacts

  class Bot {
    const store: Store
    var convs: map<Flow, State>
    var session: Session

    ghost predicate Valid()
      reads this, store
    {
      store.Valid() && WellFormed(store.rows) && ConvsOk(convs)
    }

    ghost function Snapshot(): Config
      reads this, store
    {
      Config(convs, session, store.rows)
    }

    /** `init_db` on a new database: an empty table, no conversation, an empty session. */
    constructor ()
      ensures Valid() && fresh(store)
      ensures convs == map[] && session == Cleared && store.rows == []
    {
      store := new Store();
      convs := map[];
      session := Cleared;
    }

    /** The loop of `setrole_select_user` (272-283): one `INSERT OR IGNORE` per usable token. */
    method AssignUsers(tokens: seq<string>, role: string) returns (success: seq<string>, failed: seq<string>)
      requires store.Valid()
      modifies store
      ensures store.Valid()
      ensures store.rows == AssignAll(old(store.rows), tokens, role)
      ensures success == Successes(tokens) && failed == Failures(tokens)
    {
      ghost var rows0 := store.rows;
      success, failed := [], [];
      var i := 0;
      while i < |tokens|
        invariant 0 <= i <= |tokens|
        invariant store.Valid()
        invariant store.rows == AssignAll(rows0, tokens[..i], role)
        invariant success == Successes(tokens[..i]) && failed == Failures(tokens[..i])
      {
        LoopTurn(rows0, tokens, i, role);
        var username := StripAt(tokens[i]);
        if username != [] {
          store.InsertOrIgnore(Fold(username), role);
          success := success + ["@" + username];
        } else {
          failed := failed + [username];
        }
        i := i + 1;
      }
      assert tokens[..|tokens|] == tokens;
    }

    /** The loop of `deleterole_role_callback` (442-453): one `DELETE` per usable token. */
    method RevokeUsers(tokens: seq<string>, role: string) returns (success: seq<string>, failed: seq<string>)
      requires store.Valid()
      modifies store
      ensures store.Valid()
      ensures store.rows == RevokeAll(old(store.rows), tokens, role)
      ensures success == Successes(tokens) && failed == Failures(tokens)
    {
      ghost var rows0 := store.rows;
      success, failed := [], [];
      var i := 0;
      while i < |tokens|
        invariant 0 <= i <= |tokens|
        invariant store.Valid()
        invariant store.rows == RevokeAll(rows0, tokens[..i], role)
        invariant success == Successes(tokens[..i]) && failed == Failures(tokens[..i])
      {
        LoopTurn(rows0, tokens, i, role);
        var username := StripAt(tokens[i]);
        if username != [] {
          store.DeleteUserRole(Fold(username), role);
          success := success + ["@" + username];
        } else {
          failed := failed + [username];
        }
        i := i + 1;
      }
      assert tokens[..|tokens|] == tokens;
    }

    /** `list_roles` (111-142): one holder query per role in use. */
    method ListRolesCommand() returns (reply: Reply)
      ensures reply == Dialogue.ListRoles(store.rows)
    {
      var roles := store.SelectDistinctRoles();
      if roles == [] {
        return NoRolesAssigned;
      }
      var entries: seq<RosterEntry> := [];
      var i := 0;
      while i < |roles|
        invariant 0 <= i <= |roles|
        invariant entries == Roster(store.rows)[..i]
      {
        var users := store.SelectHolders(roles[i]);
        entries := entries + [RosterEntry(roles[i], users)];
        i := i + 1;
      }
      assert Roster(store.rows)[..|roles|] == Roster(store.rows);
      reply := RosterReply(entries);
    }

    /** Runs one handler against the store and the session. */
    method RunHandler(h: Handler, env: Env) returns (next: Next, reply: Reply)
      requires store.Valid()
      modifies this, store
      ensures store.Valid()
      ensures Outcome(session, store.rows, next, reply) == Dialogue.Run(h, old(session), old(store.rows), env)
      ensures convs == old(convs)
    {
      match h
      case SelectUsers(t) =>
        next, reply := SetRoleUsersTyped(t);
      case DeleteRoleCallback(d) =>
        next, reply := DeleteRoleChosen(d);
      case RemoveRoleCallback(d) =>
        next, reply := RemoveRoleChosen(d);
      case ConfirmCallback(d) =>
        next, reply := AssignRoleConfirmed(d, env);
      case _ =>
        // the remaining handlers only read the table
        var o := Dialogue.Run(h, session, store.rows, env);
        session, next, reply := o.session, o.next, o.reply;
    }

    /** `setrole_select_user` (258-307) on the store. */
    method SetRoleUsersTyped(t: string) returns (next: Next, reply: Reply)
      requires store.Valid()
      modifies store
      ensures store.Valid()
      ensures Outcome(session, store.rows, next, reply) == Dialogue.SetRoleUsersTyped(session, old(store.rows), t)
    {
      if session.setrole.None? {
        next, reply := Raised, Silent;
      } else if session.setrole.value.None? || session.setrole.value.value == [] {
        next, reply := End, RoleNotFound;
      } else {
        var role := session.setrole.value.value;
        var tokens := SplitWs(t);
        if tokens == [] {
          next, reply := Goto(SetRoleSelectUser), NoUsernamesGiven;
        } else {
          var success, failed := AssignUsers(tokens, role);
          next, reply := End, Assigned(role, success, failed);
        }
      }
    }

    /** `deleterole_role_callback` (419-480) on the store. */
    method DeleteRoleChosen(d: string) returns (next: Next, reply: Reply)
      requires store.Valid()
      modifies this, store
      ensures store.Valid()
      ensures Outcome(session, store.rows, next, reply) == Dialogue.DeleteRoleChosen(old(session), old(store.rows), d)
      ensures convs == old(convs)
    {
      if d == "back" {
        session, next, reply := Cleared, Raised, Silent;
      } else if StartsWith(d, "deleterole_role:") {
        var role := AfterFirstColon(d);
        if role.None? || session.deleterole.None? {
          next, reply := Raised, Silent;
        } else if session.deleterole.value == [] {
          next, reply := End, UsersNotFound;
        } else {
          var success, failed := RevokeUsers(session.deleterole.value, role.value);
          next, reply := End, Unassigned(role.value, success, failed);
        }
      } else {
        next, reply := End, UnknownCommand;
      }
    }

    /** `removerole_choose_role` (703-747) on the store. */
    method RemoveRoleChosen(d: string) returns (next: Next, reply: Reply)
      requires store.Valid()
      modifies store
      ensures store.Valid()
      ensures Outcome(session, store.rows, next, reply) == Dialogue.RemoveRoleChosen(session, old(store.rows), d)
    {
      if d == "cancel" {
        next, reply := End, PromptDismissed;
      } else if StartsWith(d, "removerole_role:") {
        var role := AfterFirstColon(d);
        if role.None? {
          next, reply := Raised, Silent;
        } else {
          store.DeleteRole(role.value);
          next, reply := End, RoleRemoved(role.value);
        }
      } else {
        next, reply := End, UnknownCommand;
      }
    }

    /** `assignrole_confirm` (815-873) on the store. */
    method AssignRoleConfirmed(d: string, env: Env) returns (next: Next, reply: Reply)
      requires store.Valid()
      modifies store
      ensures store.Valid()
      ensures Outcome(session, store.rows, next, reply) == Dialogue.AssignRoleConfirmed(session, old(store.rows), d, env)
    {
      if d == "assignrole_confirm_yes" {
        if session.assignrole.None? {
          next, reply := Raised, Silent;
        } else if session.assignrole.value == [] {
          next, reply := End, RoleNotFound;
        } else if env.username.None? || env.username.value == [] {
          next, reply := End, NoUsername;
        } else {
          var role := session.assignrole.value;
          store.InsertOrIgnore(Fold(env.username.value), role);
          next, reply := End, SelfAssigned(role);
        }
      } else if d == "assignrole_confirm_no" {
        next, reply := End, SelfAssignDeclined;
      } else {
        next, reply := End, UnknownCommand;
      }
    }

    /**
     * One update: group 0 as `Step` describes it, then, for a text message,
     * the mention handler on the table as group 0 left it.
     */
    method Handle(ev: Event, env: Env) returns (reply: Reply, mentioned: Option<seq<string>>)
      requires Valid()
      modifies this, store
      ensures Valid()
      ensures Turn(Snapshot(), reply) == Step(old(Snapshot()), ev, env)
      ensures !ev.Typed? ==> mentioned.None?
      ensures ev.Typed? ==> (mentioned.None? <==> forall x :: x in store.rows ==> !Named(x, FindMentions(ev.text)))
      ensures ev.Typed? && mentioned.Some? ==> forall m :: m in mentioned.value <==>
        exists x :: x in store.rows && Named(x, FindMentions(ev.text)) && m == "@" + x.username
    {
      StepInvariant(Snapshot(), ev, env);
      mentioned := None;
      if ev == Issued(RolesCmd) {
        reply := ListRolesCommand();
      } else if ev == Issued(StartCmd) {
        reply := Welcome;
      } else if ev == Issued(HelpCmd) {
        reply := HelpText;
      } else {
        var routed := Dispatch(convs, ev);
        if routed.None? {
          reply := Silent;
        } else {
          var next;
          next, reply := RunHandler(routed.value.handler, env);
          convs := Advance(convs, routed.value.flow, next);
        }
      }
      if ev.Typed? {
        var lookups;
        lookups, mentioned := ResolveMentions(store, ev.text);
      }
    }
  }
}
