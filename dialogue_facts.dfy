/**
 * Properties of the dialogues: which conversation an update reaches, what
 * entering and cancelling do, the admin check, the effect of each step on
 * the table, and the invariants every update keeps.
 */
module DialogueFacts {
  import opened Wrappers
  import opened Seqs
  import opened Text
  import opened Table
  import opened TableFacts
  import opened Dialogue
  import opened LoopFacts

  /** Every conversation is in one of its own states. */
  ghost predicate ConvsOk(convs: map<Flow, State>) {
    forall f :: f in convs ==> FlowOf(convs[f]) == f
  }

  /** `f` is the active conversation registered first. */
  ghost predicate FirstActive(convs: map<Flow, State>, f: Flow) {
    f in convs && forall g :: g in convs ==> Rank(f) <= Rank(g)
  }

  predicate TakesText(s: State) {
    s == SetRoleEnterRoleName || s == SetRoleSelectUser || s == GetRoleEnterUsername || s == DeleteRoleSelectUser
  }

  /** A button press or a text message is handled by the conversation it is routed to, if any. */
  lemma StepRouted(c: Config, ev: Event, env: Env)
    requires !(ev == Issued(RolesCmd) || ev == Issued(StartCmd) || ev == Issued(HelpCmd))
    ensures Dispatch(c.convs, ev).None? ==> Step(c, ev, env) == Turn(c, Silent)
    ensures Dispatch(c.convs, ev).Some? ==>
      var r := Dispatch(c.convs, ev).value;
      var o := Dialogue.Run(r.handler, c.session, c.rows, env);
      Step(c, ev, env) == Turn(Config(Advance(c.convs, r.flow, o.next), o.session, o.rows), o.reply)
  {
  }

  /** A routed handler that raises leaves everything as it was. */
  lemma RaisedChangesNothing(c: Config, ev: Event, env: Env, r: Routed)
    requires !ev.Issued? && Dispatch(c.convs, ev) == Some(r)
    requires Dialogue.Run(r.handler, c.session, c.rows, env) == Outcome(c.session, c.rows, Raised, Silent)
    ensures Step(c, ev, env) == Turn(c, Silent)
  {
    StepRouted(c, ev, env);
  }

  // --------------------------------------------------------------- routing

  /**
   * An entry command reaches its own conversation exactly when that one is
   * not active; while it is active the command is dropped.
   */
  lemma EntryCommandRouting(convs: map<Flow, State>, f: Flow)
    ensures Dispatch(convs, Issued(EntryCommand(f))) == if f in convs then None else Some(Routed(f, Entry(f)))
  {
    var ev := Issued(EntryCommand(f));
    forall g | g != f ensures Accept(g, Lookup(convs, g), ev).None? {
      assert EntryCommand(g) != EntryCommand(f) by { match g case _ => {} }
    }
    var r := Dispatch(convs, ev);
    if r.Some? {
      assert r.value.flow == f;
    }
  }

  /** `/cancel` reaches the first active conversation, and nothing when none is active. */
  lemma CancelRouting(convs: map<Flow, State>)
    ensures Dispatch(convs, Issued(CancelCmd)).None? <==> convs == map[]
    ensures forall r :: Dispatch(convs, Issued(CancelCmd)) == Some(r) ==> r.handler == Cancel && FirstActive(convs, r.flow)
  {
    var ev := Issued(CancelCmd);
    forall g ensures Accept(g, Lookup(convs, g), ev).Some? <==> g in convs {
      assert EntryCommand(g) != CancelCmd by { match g case _ => {} }
    }
    if convs != map[] {
      var g :| g in convs;
      assert Accept(g, Lookup(convs, g), ev).Some?;
    }
  }

  /** A plain text message reaches the first conversation that waits for text. */
  lemma TextRouting(convs: map<Flow, State>, t: string)
    ensures Dispatch(convs, Typed(t)).None? <==> forall f :: f in convs ==> !TakesText(convs[f])
    ensures forall r :: Dispatch(convs, Typed(t)) == Some(r) ==>
      r.flow in convs && TakesText(convs[r.flow])
      && forall g :: g in convs && TakesText(convs[g]) ==> Rank(r.flow) <= Rank(g)
  {
    var ev := Typed(t);
    forall g ensures Accept(g, Lookup(convs, g), ev).Some? <==> g in convs && TakesText(convs[g]) {
    }
    if exists f :: f in convs && TakesText(convs[f]) {
      var f :| f in convs && TakesText(convs[f]);
      assert Accept(f, Lookup(convs, f), ev).Some?;
    }
  }

  // ------------------------------------------------------ entry and cancel

  /** A command that starts a conversation is dropped while that conversation is active. */
  lemma EntryIgnoredWhileActive(c: Config, f: Flow, env: Env)
    requires f in c.convs
    ensures Step(c, Issued(EntryCommand(f)), env) == Turn(c, Silent)
  {
    EntryCommandRouting(c.convs, f);
    assert EntryCommand(f) != RolesCmd && EntryCommand(f) != StartCmd && EntryCommand(f) != HelpCmd by { match f case _ => {} }
    StepRouted(c, Issued(EntryCommand(f)), env);
    AdvanceOthers(c.convs, f, Start(f, c.rows, env).next);
  }

  /**
   * Entering a conversation clears the whole session and touches no other
   * conversation's state and no row.
   */
  lemma EntryRestarts(c: Config, f: Flow, env: Env)
    requires f !in c.convs
    ensures Step(c, Issued(EntryCommand(f)), env).after.session == Cleared
    ensures Step(c, Issued(EntryCommand(f)), env).after.rows == c.rows
    ensures forall g :: g != f ==> Lookup(Step(c, Issued(EntryCommand(f)), env).after.convs, g) == Lookup(c.convs, g)
  {
    EntryCommandRouting(c.convs, f);
    assert EntryCommand(f) != RolesCmd && EntryCommand(f) != StartCmd && EntryCommand(f) != HelpCmd by { match f case _ => {} }
    StepRouted(c, Issued(EntryCommand(f)), env);
    AdvanceOthers(c.convs, f, Start(f, c.rows, env).next);
  }

  /**
   * `/setrole`, `/deleterole` and `/removerole` go on only for an
   * administrator or the chat's creator; when the status lookup fails the
   * dialogue ends as for a non-administrator.
   */
  lemma AdminGateFailsClosed(c: Config, f: Flow, env: Env)
    requires f == SetRoleFlow || f == DeleteRoleFlow || f == RemoveRoleFlow
    requires f !in c.convs
    ensures f in Step(c, Issued(EntryCommand(f)), env).after.convs ==> IsAdmin(env.status)
    ensures Step(c, Issued(EntryCommand(f)), env).reply == RightsUnknown <==> env.status.CheckRaised?
    ensures Step(c, Issued(EntryCommand(f)), env).reply == NotAdmin <==> env.status.Status? && !IsAdmin(env.status)
    ensures Step(c, Issued(EntryCommand(f)), env).after.rows == c.rows
  {
    EntryCommandRouting(c.convs, f);
  }

  /** `/cancel` ends the first active conversation and clears the session. */
  lemma CancelEndsFirstActive(c: Config, env: Env)
    ensures c.convs == map[] ==> Step(c, Issued(CancelCmd), env) == Turn(c, Silent)
    ensures c.convs != map[] ==> exists f :: (FirstActive(c.convs, f)
      && Step(c, Issued(CancelCmd), env) == Turn(Config(c.convs - {f}, Cleared, c.rows), Cancelled))
  {
    CancelRouting(c.convs);
  }

  // ------------------------------------------------------------- handlers

  /** The role-name prompt repeats exactly when the text is blank. */
  lemma BlankRoleNameReprompts(session: Session, rows: seq<Row>, text: string)
    ensures SetRoleNameTyped(session, rows, text).next == Goto(SetRoleEnterRoleName) <==> IsBlank(text)
    ensures !IsBlank(text) && session.setrole.Some? ==>
      SetRoleNameTyped(session, rows, text).session.setrole == Some(Some(Strip(text)))
      && Strip(text) != [] && NotSpace(Strip(text)[0]) && NotSpace(Strip(text)[|Strip(text)| - 1])
    ensures SetRoleNameTyped(session, rows, text).rows == rows
  {
    BlankInput(text);
  }

  /** `/setrole`'s username prompt repeats exactly when the text is blank. */
  lemma BlankUsernamesReprompt(session: Session, rows: seq<Row>, text: string)
    requires session.setrole.Some? && session.setrole.value.Some? && session.setrole.value.value != []
    ensures SetRoleUsersTyped(session, rows, text).next == Goto(SetRoleSelectUser) <==> IsBlank(text)
    ensures IsBlank(text) ==> SetRoleUsersTyped(session, rows, text) == Outcome(session, rows, Goto(SetRoleSelectUser), NoUsernamesGiven)
  {
    BlankInput(text);
  }

  /**
   * `/deleterole`'s username prompt repeats exactly when the text is blank;
   * otherwise the tokens are kept in the session for the role button. The
   * table is untouched either way.
   */
  lemma DeleteRoleUsernamesKept(session: Session, rows: seq<Row>, text: string)
    ensures DeleteRoleUsersTyped(session, rows, text).next == Goto(DeleteRoleSelectUser) <==> IsBlank(text)
    ensures IsBlank(text) ==> DeleteRoleUsersTyped(session, rows, text) == Outcome(session, rows, Goto(DeleteRoleSelectUser), NoUsernamesGiven)
    ensures !IsBlank(text) ==> DeleteRoleUsersTyped(session, rows, text).session == session.(deleterole := Some(SplitWs(text)))
    ensures DeleteRoleUsersTyped(session, rows, text).rows == rows
  {
    BlankInput(text);
  }

  /**
   * Typed usernames get the chosen role: the table stays well formed, keeps
   * every row, gains only rows of that role, and every listed user holds it.
   */
  lemma SetRoleAssigns(session: Session, rows: seq<Row>, text: string, role: string)
    requires WellFormed(rows) && session.setrole == Some(Some(role)) && role != [] && !IsBlank(text)
    ensures SetRoleUsersTyped(session, rows, text).next == End
    ensures SetRoleUsersTyped(session, rows, text).reply == Assigned(role, Successes(SplitWs(text)), Failures(SplitWs(text)))
    ensures WellFormed(SetRoleUsersTyped(session, rows, text).rows)
    ensures forall x :: x in rows ==> x in SetRoleUsersTyped(session, rows, text).rows
    ensures forall x :: x in SetRoleUsersTyped(session, rows, text).rows ==> x in rows || (x.role == role && Listed(x.username, SplitWs(text)))
    ensures forall u :: Listed(u, SplitWs(text)) ==> Holds(SetRoleUsersTyped(session, rows, text).rows, u, role)
  {
    BlankInput(text);
    AssignAllEffect(rows, SplitWs(text), role);
  }

  /** Choosing a role after typing usernames removes exactly that role from exactly those users. */
  lemma DeleteRoleRevokes(session: Session, rows: seq<Row>, role: string, tokens: seq<string>)
    requires WellFormed(rows) && session.deleterole == Some(tokens) && tokens != []
    ensures DeleteRoleChosen(session, rows, "deleterole_role:" + role).next == End
    ensures DeleteRoleChosen(session, rows, "deleterole_role:" + role).reply == Unassigned(role, Successes(tokens), Failures(tokens))
    ensures WellFormed(DeleteRoleChosen(session, rows, "deleterole_role:" + role).rows)
    ensures forall x :: x in DeleteRoleChosen(session, rows, "deleterole_role:" + role).rows <==>
      x in rows && !(x.role == role && Listed(x.username, tokens))
  {
    var d := "deleterole_role:" + role;
    assert d == "deleterole_role" + ":" + role;
    PayloadRoundTrip("deleterole_role", role);
    assert StartsWith(d, "deleterole_role:") && d != "back";
    assert DeleteRoleChosen(session, rows, d)
      == Outcome(session, RevokeAll(rows, tokens, role), End, Unassigned(role, Successes(tokens), Failures(tokens)));
    RevokeAllEffect(rows, tokens, role);
  }

  /**
   * The "cancel" payload reaches `deleterole_role_callback`, which has no
   * branch for it: the conversation ends with "unknown command" and nothing
   * else changes.
   */
  lemma DeleteRoleCancelQuirk(c: Config, env: Env)
    requires ConvsOk(c.convs)
    requires Lookup(c.convs, SetRoleFlow) != Some(SetRoleChooseOption)
    requires Lookup(c.convs, DeleteRoleFlow) == Some(DeleteRoleSelectRole)
    ensures Step(c, Pressed("cancel"), env) == Turn(c.(convs := c.convs - {DeleteRoleFlow}), UnknownCommand)
  {
    CancelButtonRouted(c.convs);
    assert DeleteRoleChosen(c.session, c.rows, "cancel") == Outcome(c.session, c.rows, End, UnknownCommand) by {
      assert !StartsWith("cancel", "deleterole_role:");
    }
    StepRouted(c, Pressed("cancel"), env);
  }

  /** At the `/deleterole` role menu, unless `/setrole` shows its menu, "cancel" goes to `deleterole_role_callback`. */
  lemma CancelButtonRouted(convs: map<Flow, State>)
    requires ConvsOk(convs)
    requires Lookup(convs, SetRoleFlow) != Some(SetRoleChooseOption)
    requires Lookup(convs, DeleteRoleFlow) == Some(DeleteRoleSelectRole)
    ensures Dispatch(convs, Pressed("cancel")) == Some(Routed(DeleteRoleFlow, DeleteRoleCallback("cancel")))
  {
    var ev := Pressed("cancel");
    assert !MatchesPrefixPattern("setrole_", "cancel");
    assert Accept(SetRoleFlow, Lookup(convs, SetRoleFlow), ev).None?;
    assert Accept(GetRoleFlow, Lookup(convs, GetRoleFlow), ev).None?;
    assert Accept(DeleteRoleFlow, Lookup(convs, DeleteRoleFlow), ev) == Some(DeleteRoleCallback("cancel"));
  }

  /** `/tagrole` mentions exactly the holders of the exact role string chosen. */
  lemma TagMentionsHolders(session: Session, rows: seq<Row>, role: string)
    ensures TagRoleChosen(session, rows, "tagrole_role:" + role).next == End
    ensures TagRoleChosen(session, rows, "tagrole_role:" + role).rows == rows
    ensures TagRoleChosen(session, rows, "tagrole_role:" + role).reply == NoMembers(role) <==> forall x :: x in rows ==> x.role != role
    ensures TagRoleChosen(session, rows, "tagrole_role:" + role).reply.Members? ==>
      TagRoleChosen(session, rows, "tagrole_role:" + role).reply.role == role
      && forall m :: m in TagRoleChosen(session, rows, "tagrole_role:" + role).reply.mentions <==>
        exists x :: x in rows && x.role == role && m == "@" + x.username
  {
    PayloadRoundTrip("tagrole_role", role);
    assert "tagrole_role:" + role == "tagrole_role" + ":" + role;
    var users := UsersWithRole(rows, role);
    if users == [] {
      forall x | x in rows ensures x.role != role {
        assert x == Row(x.username, x.role);
        assert x.username !in users;
      }
    } else {
      assert users[0] in users;
      forall m ensures m in MentionSet(users) <==> exists x :: x in rows && x.role == role && m == "@" + x.username {
        if exists x :: x in rows && x.role == role && m == "@" + x.username {
          var x :| x in rows && x.role == role && m == "@" + x.username;
          assert x == Row(x.username, role);
          assert x.username in users;
        }
      }
    }
  }

  /** `/removerole` deletes every row of the exact role string chosen, and only those. */
  lemma RemoveRoleDeletes(session: Session, rows: seq<Row>, role: string)
    requires WellFormed(rows)
    ensures RemoveRoleChosen(session, rows, "removerole_role:" + role).reply == RoleRemoved(role)
    ensures WellFormed(RemoveRoleChosen(session, rows, "removerole_role:" + role).rows)
    ensures forall x :: x in RemoveRoleChosen(session, rows, "removerole_role:" + role).rows <==> x in rows && x.role != role
  {
    var d := "removerole_role:" + role;
    assert d == "removerole_role" + ":" + role;
    PayloadRoundTrip("removerole_role", role);
    assert StartsWith(d, "removerole_role:") && d != "cancel";
    assert RemoveRoleChosen(session, rows, d) == Outcome(session, DeleteRole(rows, role), End, RoleRemoved(role));
    DeleteRoleEffect(rows, role);
  }

  /** `/assignrole` stores the chosen role lower-cased and asks for confirmation. */
  lemma AssignRoleFolds(session: Session, rows: seq<Row>, role: string)
    ensures AssignRoleChosen(session, rows, "assignrole_role:" + role) ==
      Outcome(session.(assignrole := Some(Fold(role))), rows, Goto(AssignRoleConfirm), ConfirmSelfAssign(Fold(role)))
  {
    PayloadRoundTrip("assignrole_role", role);
    assert "assignrole_role:" + role == "assignrole_role" + ":" + role;
  }

  /**
   * Only "yes", with a role kept in the session and a username, changes the
   * table, and then the user holds the role afterwards.
   */
  lemma SelfAssignConfirm(session: Session, rows: seq<Row>, data: string, env: Env)
    requires WellFormed(rows)
    ensures WellFormed(AssignRoleConfirmed(session, rows, data, env).rows)
    ensures AssignRoleConfirmed(session, rows, data, env).next != End ==> AssignRoleConfirmed(session, rows, data, env).next == Raised
    ensures AssignRoleConfirmed(session, rows, data, env).reply.SelfAssigned? <==>
      data == "assignrole_confirm_yes" && session.assignrole.Some? && session.assignrole.value != []
      && env.username.Some? && env.username.value != []
    ensures AssignRoleConfirmed(session, rows, data, env).reply.SelfAssigned? ==>
      Holds(AssignRoleConfirmed(session, rows, data, env).rows, Fold(env.username.value), session.assignrole.value)
    ensures !AssignRoleConfirmed(session, rows, data, env).reply.SelfAssigned? ==> AssignRoleConfirmed(session, rows, data, env).rows == rows
    ensures data == "assignrole_confirm_no" ==> AssignRoleConfirmed(session, rows, data, env).reply == SelfAssignDeclined
    ensures data == "assignrole_confirm_yes" && session.assignrole.None? ==>
      AssignRoleConfirmed(session, rows, data, env) == Outcome(session, rows, Raised, Silent)
  {
    if data == "assignrole_confirm_yes" && session.assignrole.Some? && env.username.Some? && env.username.value != [] {
      StoredName(env.username.value);
    }
  }

  /** Any other `setrole_` payload ends the dialogue as an unknown command, leaving `{}` behind. */
  lemma UnknownOptionEnds(session: Session, rows: seq<Row>, data: string)
    requires data != "cancel" && data != "back" && data != "setrole_existing" && data != "setrole_new"
    requires !StartsWith(data, "setrole_role:")
    ensures SetRoleOptionChosen(session, rows, data) == Outcome(session.(setrole := Some(None)), rows, End, UnknownCommand)
  {
  }

  /**
   * A payload none of the role-menu and confirmation handlers knows ends
   * the dialogue as an unknown command without touching the table or the
   * session.
   */
  lemma UnknownPayloadEnds(session: Session, rows: seq<Row>, data: string, env: Env)
    requires data != "cancel" && data != "back"
    ensures !StartsWith(data, "deleterole_role:") ==> DeleteRoleChosen(session, rows, data) == Outcome(session, rows, End, UnknownCommand)
    ensures !StartsWith(data, "tagrole_role:") ==> TagRoleChosen(session, rows, data) == Outcome(session, rows, End, UnknownCommand)
    ensures !StartsWith(data, "removerole_role:") ==> RemoveRoleChosen(session, rows, data) == Outcome(session, rows, End, UnknownCommand)
    ensures !StartsWith(data, "assignrole_role:") ==> AssignRoleChosen(session, rows, data) == Outcome(session, rows, End, UnknownCommand)
    ensures data != "assignrole_confirm_yes" && data != "assignrole_confirm_no" ==>
      AssignRoleConfirmed(session, rows, data, env) == Outcome(session, rows, End, UnknownCommand)
  {
  }

  /**
   * `/getrole` reports every role the lower-cased name holds, no two of
   * them equal up to case, or says it holds none.
   */
  lemma GetRoleReports(session: Session, rows: seq<Row>, text: string)
    requires Unique(rows)
    ensures GetRoleUsernameTyped(session, rows, text).next == End
    ensures GetRoleUsernameTyped(session, rows, text).rows == rows
    ensures GetRoleUsernameTyped(session, rows, text).reply == UserHasNoRoles(StripAt(Strip(text))) <==>
      forall x :: x in rows ==> x.username != Fold(StripAt(Strip(text)))
    ensures GetRoleUsernameTyped(session, rows, text).reply.UserRoles? ==>
      var rs := GetRoleUsernameTyped(session, rows, text).reply.roles;
      GetRoleUsernameTyped(session, rows, text).reply.username == StripAt(Strip(text))
      && (forall r :: r in rs <==> Row(Fold(StripAt(Strip(text))), r) in rows)
      && forall i, j :: 0 <= i < j < |rs| ==> Fold(rs[i]) != Fold(rs[j])
  {
    var u := Fold(StripAt(Strip(text)));
    var roles := RolesOf(rows, u);
    RolesOfFoldDistinct(rows, u);
    if roles == [] {
      forall x | x in rows ensures x.username != u {
        assert x == Row(x.username, x.role);
        assert x.username == u ==> x.role in roles;
      }
    } else {
      assert roles[0] in roles;
    }
  }

  /**
   * A role button left over from a `/deleterole` dialogue whose session a
   * later entry command cleared still reaches `deleterole_role_callback`,
   * which raises KeyError: nothing changes and the dialogue stays where it was.
   */
  lemma StaleDeleteRoleButton(c: Config, role: string, env: Env)
    requires ConvsOk(c.convs)
    requires Lookup(c.convs, DeleteRoleFlow) == Some(DeleteRoleSelectRole) && c.session.deleterole.None?
    requires forall i :: 0 <= i < |role| - 1 ==> role[i] != '\n'
    ensures Step(c, Pressed("deleterole_role:" + role), env) == Turn(c, Silent)
  {
    var d := "deleterole_role:" + role;
    assert d == "deleterole_role" + ":" + role;
    RoleButtonRoundTrip("deleterole_role", role);
    assert !StartsWith(d, "setrole_") by { assert d[0] != "setrole_"[0]; }
    assert !BackOrCancel(d) by { assert |d| > |"cancel\n"|; }
    DeleteButtonIgnored(c, d, env);
  }

  /** A role button the role menu accepts, pressed without `deleterole` in the session, changes nothing. */
  lemma DeleteButtonIgnored(c: Config, d: string, env: Env)
    requires ConvsOk(c.convs) && Lookup(c.convs, DeleteRoleFlow) == Some(DeleteRoleSelectRole) && c.session.deleterole.None?
    requires !StartsWith(d, "setrole_") && !BackOrCancel(d) && MatchesPrefixPattern("deleterole_role:", d)
    requires StartsWith(d, "deleterole_role:") && AfterFirstColon(d).Some?
    ensures Step(c, Pressed(d), env) == Turn(c, Silent)
  {
    DeleteButtonRouted(c.convs, d);
    DeleteButtonRaises(c.session, c.rows, d, env);
    RaisedChangesNothing(c, Pressed(d), env, Routed(DeleteRoleFlow, DeleteRoleCallback(d)));
  }

  /** A `deleterole_role:` button reaches `deleterole_role_callback` at the role menu. */
  lemma DeleteButtonRouted(convs: map<Flow, State>, d: string)
    requires ConvsOk(convs) && Lookup(convs, DeleteRoleFlow) == Some(DeleteRoleSelectRole)
    requires !StartsWith(d, "setrole_") && !BackOrCancel(d) && MatchesPrefixPattern("deleterole_role:", d)
    ensures Dispatch(convs, Pressed(d)) == Some(Routed(DeleteRoleFlow, DeleteRoleCallback(d)))
  {
    assert Accept(DeleteRoleFlow, Lookup(convs, DeleteRoleFlow), Pressed(d)) == Some(DeleteRoleCallback(d));
  }

  /** Without `deleterole` in the session, a role button raises KeyError. */
  lemma DeleteButtonRaises(session: Session, rows: seq<Row>, d: string, env: Env)
    requires session.deleterole.None? && !BackOrCancel(d)
    requires StartsWith(d, "deleterole_role:") && AfterFirstColon(d).Some?
    ensures Dialogue.Run(DeleteRoleCallback(d), session, rows, env) == Outcome(session, rows, Raised, Silent)
  {
    assert d != "back" by { assert !MatchesWordPattern("back", d); }
  }

  /**
   * A role button carries `prefix:role`: its handler gets the role back
   * whole, and the button is accepted only when the role has no line break
   * before its last character.
   */
  lemma RoleButtonRoundTrip(head: string, role: string)
    requires ':' !in head
    ensures AfterFirstColon(head + ":" + role) == Some(role)
    ensures MatchesPrefixPattern(head + ":", head + ":" + role) <==> forall i :: 0 <= i < |role| - 1 ==> role[i] != '\n'
  {
    PayloadRoundTrip(head, role);
    var p, d := head + ":", head + ":" + role;
    assert d == p + role;
    assert d[..|p|] == p;
    assert forall i :: |p| <= i < |d| ==> d[i] == role[i - |p|];
  }

  /**
   * After `/setrole` reached the role-name prompt, any other entry command
   * clears the session the prompt relies on; the stale conversation still
   * takes every non-blank text message first and raises KeyError on it, so
   * nothing changes and no later conversation sees the text.
   */
  lemma StaleRoleNamePrompt(c: Config, t: string, env: Env)
    requires Lookup(c.convs, SetRoleFlow) == Some(SetRoleEnterRoleName)
    requires c.session.setrole.None? && !IsBlank(t)
    ensures Step(c, Typed(t), env) == Turn(c, Silent)
  {
    NameTextRouted(c.convs, t);
    NameTextRaises(c.session, c.rows, t, env);
    RaisedChangesNothing(c, Typed(t), env, Routed(SetRoleFlow, NewRoleName(t)));
  }

  /** At the role-name prompt every text message goes to `setrole_enter_role_name`. */
  lemma NameTextRouted(convs: map<Flow, State>, t: string)
    requires Lookup(convs, SetRoleFlow) == Some(SetRoleEnterRoleName)
    ensures Dispatch(convs, Typed(t)) == Some(Routed(SetRoleFlow, NewRoleName(t)))
  {
  }

  /** Without `setrole` in the session, a non-blank role name raises KeyError. */
  lemma NameTextRaises(session: Session, rows: seq<Row>, t: string, env: Env)
    requires session.setrole.None? && !IsBlank(t)
    ensures Dialogue.Run(NewRoleName(t), session, rows, env) == Outcome(session, rows, Raised, Silent)
  {
    assert Strip(t) != [];
    assert SetRoleNameTyped(session, rows, t) == Outcome(session, rows, Raised, Silent);
  }

  /** The runs of updates that lead into that state. */
  function Replay(c: Config, evs: seq<Event>, env: Env): Config
    decreases |evs|
  {
    if evs == [] then c else Replay(Step(c, evs[0], env).after, evs[1..], env)
  }

  lemma StaleRoleNameExample()
    ensures var admin := Env(Status("creator"), Some("alice"));
      var c := Replay(Config(map[], Cleared, []), [Issued(SetRoleCmd), Pressed("setrole_new"), Issued(GetRoleCmd)], admin);
      c.convs == map[SetRoleFlow := SetRoleEnterRoleName, GetRoleFlow := GetRoleEnterUsername]
      && c.session == Cleared
      && Step(c, Typed("alice"), admin) == Turn(c, Silent)
  {
    var admin := Env(Status("creator"), Some("alice"));
    var c0 := Config(map[], Cleared, []);
    var c1 := Config(map[SetRoleFlow := SetRoleChooseOption], Cleared, []);
    var c2 := Config(map[SetRoleFlow := SetRoleEnterRoleName], Cleared.(setrole := Some(None)), []);
    var c3 := Config(map[SetRoleFlow := SetRoleEnterRoleName, GetRoleFlow := GetRoleEnterUsername], Cleared, []);
    ExampleOpen(admin);
    ExampleChooseNew(admin);
    ExampleSwitch(admin);
    assert Replay(c0, [Issued(SetRoleCmd), Pressed("setrole_new"), Issued(GetRoleCmd)], admin) == c3 by {
      assert [Issued(SetRoleCmd), Pressed("setrole_new"), Issued(GetRoleCmd)][1..] == [Pressed("setrole_new"), Issued(GetRoleCmd)];
      assert [Pressed("setrole_new"), Issued(GetRoleCmd)][1..] == [Issued(GetRoleCmd)];
    }
    assert !IsBlank("alice") by { assert !IsSpace("alice"[0]); }
    StaleRoleNamePrompt(c3, "alice", admin);
  }

  /** `/setrole` from a fresh start opens the option menu. */
  lemma ExampleOpen(admin: Env)
    requires admin == Env(Status("creator"), Some("alice"))
    ensures Step(Config(map[], Cleared, []), Issued(SetRoleCmd), admin).after
      == Config(map[SetRoleFlow := SetRoleChooseOption], Cleared, [])
  {
    EntryCommandRouting(map[], SetRoleFlow);
  }

  /** The "new role" button moves to the role-name prompt. */
  lemma ExampleChooseNew(admin: Env)
    ensures Step(Config(map[SetRoleFlow := SetRoleChooseOption], Cleared, []), Pressed("setrole_new"), admin).after
      == Config(map[SetRoleFlow := SetRoleEnterRoleName], Cleared.(setrole := Some(None)), [])
  {
    var convs := map[SetRoleFlow := SetRoleChooseOption];
    assert MatchesPrefixPattern("setrole_", "setrole_new");
    assert Dispatch(convs, Pressed("setrole_new")) == Some(Routed(SetRoleFlow, OptionCallback("setrole_new")));
  }

  /** `/getrole` starts its own dialogue and clears the session. */
  lemma ExampleSwitch(admin: Env)
    requires admin == Env(Status("creator"), Some("alice"))
    ensures Step(Config(map[SetRoleFlow := SetRoleEnterRoleName], Cleared.(setrole := Some(None)), []), Issued(GetRoleCmd), admin).after
      == Config(map[SetRoleFlow := SetRoleEnterRoleName, GetRoleFlow := GetRoleEnterUsername], Cleared, [])
  {
    EntryCommandRouting(map[SetRoleFlow := SetRoleEnterRoleName], GetRoleFlow);
  }

  // ------------------------------------------------------------ invariants

  /** Every handler keeps the table well formed. */
  lemma RunKeepsTable(h: Handler, session: Session, rows: seq<Row>, env: Env)
    requires WellFormed(rows)
    ensures WellFormed(Dialogue.Run(h, session, rows, env).rows)
  {
    match h
    case SelectUsers(t) => {
      if session.setrole.Some? && session.setrole.value.Some? && session.setrole.value.value != [] {
        AssignAllEffect(rows, SplitWs(t), session.setrole.value.value);
      }
    }
    case DeleteRoleCallback(d) => {
      if session.deleterole.Some? {
        forall role ensures WellFormed(RevokeAll(rows, session.deleterole.value, role)) {
          RevokeAllEffect(rows, session.deleterole.value, role);
        }
      }
    }
    case RemoveRoleCallback(d) => {
      forall role ensures WellFormed(DeleteRole(rows, role)) {
        DeleteRoleEffect(rows, role);
      }
    }
    case ConfirmCallback(d) => {
      SelfAssignConfirm(session, rows, d, env);
    }
    case _ => {}
  }

  /** No conversation other than `f` has a different state in `after`. */
  ghost predicate OnlyChanged(before: map<Flow, State>, after: map<Flow, State>, f: Flow) {
    forall g :: g != f ==> Lookup(after, g) == Lookup(before, g)
  }

  /** Moving one conversation touches no other. */
  lemma AdvanceOthers(convs: map<Flow, State>, f: Flow, next: Next)
    ensures OnlyChanged(convs, Advance(convs, f, next), f)
  {
  }

  /** Moving one conversation to one of its own states keeps every conversation in its own states. */
  lemma AdvanceOk(convs: map<Flow, State>, f: Flow, next: Next)
    requires ConvsOk(convs) && (next.Goto? ==> FlowOf(next.state) == f)
    ensures ConvsOk(Advance(convs, f, next)) && OnlyChanged(convs, Advance(convs, f, next), f)
  {
    AdvanceOthers(convs, f, next);
  }

  /** The handler an update is routed to moves, if anywhere, to a state of the conversation it was routed through. */
  lemma RoutedWithin(c: Config, ev: Event, env: Env)
    requires ConvsOk(c.convs) && Dispatch(c.convs, ev).Some?
    ensures Within(Dialogue.Run(Dispatch(c.convs, ev).value.handler, c.session, c.rows, env), Dispatch(c.convs, ev).value.flow)
  {
    var r := Dispatch(c.convs, ev).value;
    assert Lookup(c.convs, r.flow).Some? ==> FlowOf(Lookup(c.convs, r.flow).value) == r.flow;
  }

  /**
   * Every update keeps the table well formed and every conversation in its
   * own states, and changes the state of at most one conversation.
   */
  lemma StepInvariant(c: Config, ev: Event, env: Env)
    requires WellFormed(c.rows) && ConvsOk(c.convs)
    ensures WellFormed(Step(c, ev, env).after.rows)
    ensures ConvsOk(Step(c, ev, env).after.convs)
    ensures exists f :: OnlyChanged(c.convs, Step(c, ev, env).after.convs, f)
  {
    var d := Dispatch(c.convs, ev);
    if d.Some? && !(ev == Issued(RolesCmd) || ev == Issued(StartCmd) || ev == Issued(HelpCmd)) {
      var f, h := d.value.flow, d.value.handler;
      StepRouted(c, ev, env);
      RunKeepsTable(h, c.session, c.rows, env);
      RoutedWithin(c, ev, env);
      AdvanceOk(c.convs, f, Dialogue.Run(h, c.session, c.rows, env).next);
    } else {
      assert Step(c, ev, env).after == c;
      assert OnlyChanged(c.convs, c.convs, SetRoleFlow);
    }
  }
}
