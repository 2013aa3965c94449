/**
 * The dialogues of roledistributor.py as a transition function.
 *
 * `main` (roledistributor.py:892-997) registers six ConversationHandlers in
 * dispatcher group 0, after the plain `/start`, `/help` and `/roles`
 * commands. Each conversation keeps its own state for the user (absent when
 * it is not active) and, with `allow_reentry` left off, listens to its entry
 * command only while it is not active. An update goes to the first handler,
 * in registration order, that accepts it. All conversations share one
 * per-user dictionary, `context.user_data`, modelled as `Session`.
 *
 * A handler's result is either its next state, `END`, or an exception: an
 * exception leaves that conversation's state as it was (and undoes nothing
 * the handler did before raising).
 */
module Dialogue {
  import opened Wrappers
  import opened Text
  import opened Table

  // ------------------------------------------------------------ vocabulary

  /** The ten conversation states, roledistributor.py:34-45. */
  datatype State =
    | SetRoleChooseOption | SetRoleEnterRoleName | SetRoleSelectUser
    | DeleteRoleSelectUser | DeleteRoleSelectRole
    | TagRoleChooseRole
    | GetRoleEnterUsername
    | RemoveRoleChooseRole
    | AssignRoleChooseRole | AssignRoleConfirm

  /** The six ConversationHandlers, in the order `main` adds them to group 0. */
  datatype Flow = SetRoleFlow | GetRoleFlow | DeleteRoleFlow | TagRoleFlow | AssignRoleFlow | RemoveRoleFlow

  function FlowOf(s: State): Flow {
    match s
    case SetRoleChooseOption | SetRoleEnterRoleName | SetRoleSelectUser => SetRoleFlow
    case DeleteRoleSelectUser | DeleteRoleSelectRole => DeleteRoleFlow
    case TagRoleChooseRole => TagRoleFlow
    case GetRoleEnterUsername => GetRoleFlow
    case RemoveRoleChooseRole => RemoveRoleFlow
    case AssignRoleChooseRole | AssignRoleConfirm => AssignRoleFlow
  }

  /** Position of a conversation among the group-0 handlers. */
  function Rank(f: Flow): nat {
    match f
    case SetRoleFlow => 0
    case GetRoleFlow => 1
    case DeleteRoleFlow => 2
    case TagRoleFlow => 3
    case AssignRoleFlow => 4
    case RemoveRoleFlow => 5
  }

  datatype Command =
    | SetRoleCmd | GetRoleCmd | DeleteRoleCmd | TagRoleCmd | AssignRoleCmd | RemoveRoleCmd
    | CancelCmd | RolesCmd | StartCmd | HelpCmd
    | OtherCmd  // any command the bot registers no handler for

  function EntryCommand(f: Flow): Command {
    match f
    case SetRoleFlow => SetRoleCmd
    case GetRoleFlow => GetRoleCmd
    case DeleteRoleFlow => DeleteRoleCmd
    case TagRoleFlow => TagRoleCmd
    case AssignRoleFlow => AssignRoleCmd
    case RemoveRoleFlow => RemoveRoleCmd
  }

  /** An update from one user: a command, a plain text message, or a button press with its payload. */
  datatype Event = Issued(cmd: Command) | Typed(text: string) | Pressed(data: string)

  /** What `get_chat_member` reports for the sender: a status, or an exception. */
  datatype MemberStatus = Status(name: string) | CheckRaised

  /** What Telegram supplies with an update: the sender's member status and `effective_user.username`. */
  datatype Env = Env(status: MemberStatus, username: Option<string>)

  predicate IsAdmin(m: MemberStatus) {
    m.Status? && (m.name == "administrator" || m.name == "creator")
  }

  /**
   * The parts of `context.user_data` the dialogues read back:
   * `setrole` is absent, `{}` (`Some(None)`) or `{'role': r}`;
   * `deleterole` holds the typed username tokens; `tagrole` and
   * `assignrole` hold the chosen role. Message ids kept for clean-up are
   * not modelled.
   */
  datatype Session = Session(
    setrole: Option<Option<string>>,
    deleterole: Option<seq<string>>,
    tagrole: Option<string>,
    assignrole: Option<string>)

  /** `context.user_data.clear()` */
  const Cleared := Session(None, None, None, None)

  /** What the bot says, without its wording. */
  datatype Reply =
    | Silent
    | Welcome | HelpText
    | NotAdmin | RightsUnknown
    | OptionMenu
    | RoleMenu(roles: seq<string>)
    | NoRoles
    | AskRoleName | EmptyRoleName | RoleCreated(role: string) | RoleChosen(role: string)
    | AskUsernames | NoUsernamesGiven
    | Assigned(role: string, success: seq<string>, failed: seq<string>)
    | Unassigned(role: string, success: seq<string>, failed: seq<string>)
    | RoleNotFound | UsersNotFound
    | AskUsername | UserRoles(username: string, roles: seq<string>) | UserHasNoRoles(username: string)
    | Members(role: string, mentions: set<string>) | NoMembers(role: string)
    | RoleRemoved(role: string)
    | ConfirmSelfAssign(role: string) | SelfAssigned(role: string) | NoUsername | SelfAssignDeclined
    | PromptDismissed  // the button message is deleted and nothing is said
    | UnknownCommand | Cancelled
    | RosterReply(entries: seq<RosterEntry>) | NoRolesAssigned

  /** A handler's return value: a state, `ConversationHandler.END`, or an exception. */
  datatype Next = Goto(state: State) | End | Raised

  datatype Outcome = Outcome(session: Session, rows: seq<Row>, next: Next, reply: Reply)

  /** The callback functions, with the text or payload they are given. */
  datatype Handler =
    | Entry(flow: Flow)
    | Cancel
    | OptionCallback(data: string)
    | NewRoleName(text: string)
    | SelectUsers(text: string)
    | EnterUsername(text: string)
    | DeleteSelectUsers(text: string)
    | DeleteRoleCallback(data: string)
    | TagRoleCallback(data: string)
    | AssignRoleCallback(data: string)
    | ConfirmCallback(data: string)
    | RemoveRoleCallback(data: string)

  /** The conversation a handler belongs to; `/cancel` belongs to every one. */
  function Owner(h: Handler): Option<Flow> {
    match h
    case Entry(f) => Some(f)
    case Cancel => None
    case OptionCallback(_) | NewRoleName(_) | SelectUsers(_) => Some(SetRoleFlow)
    case EnterUsername(_) => Some(GetRoleFlow)
    case DeleteSelectUsers(_) | DeleteRoleCallback(_) => Some(DeleteRoleFlow)
    case TagRoleCallback(_) => Some(TagRoleFlow)
    case AssignRoleCallback(_) | ConfirmCallback(_) => Some(AssignRoleFlow)
    case RemoveRoleCallback(_) => Some(RemoveRoleFlow)
  }

  // --------------------------------------------------------------- routing

  function Lookup(convs: map<Flow, State>, f: Flow): Option<State> {
    if f in convs then Some(convs[f]) else None
  }

  /** The `^(back|cancel)$` pattern. */
  predicate BackOrCancel(d: string) {
    MatchesWordPattern("back", d) || MatchesWordPattern("cancel", d)
  }

  /** The handlers listed for a state in `main`, other than `/cancel`. */
  function StateHandler(s: State, ev: Event): Option<Handler> {
    match ev
    case Issued(_) => None
    case Typed(t) => (
      match s
      case SetRoleEnterRoleName => Some(NewRoleName(t))
      case SetRoleSelectUser => Some(SelectUsers(t))
      case GetRoleEnterUsername => Some(EnterUsername(t))
      case DeleteRoleSelectUser => Some(DeleteSelectUsers(t))
      case _ => None)
    case Pressed(d) => (
      match s
      case SetRoleChooseOption =>
        if MatchesPrefixPattern("setrole_", d) || BackOrCancel(d) then Some(OptionCallback(d)) else None
      case DeleteRoleSelectRole =>
        if MatchesPrefixPattern("deleterole_role:", d) || BackOrCancel(d) then Some(DeleteRoleCallback(d)) else None
      case TagRoleChooseRole =>
        if MatchesPrefixPattern("tagrole_role:", d) || MatchesWordPattern("cancel", d) then Some(TagRoleCallback(d)) else None
      case AssignRoleChooseRole =>
        if MatchesPrefixPattern("assignrole_role:", d) || MatchesWordPattern("cancel", d) then Some(AssignRoleCallback(d)) else None
      case AssignRoleConfirm =>
        if MatchesPrefixPattern("assignrole_confirm_", d) then Some(ConfirmCallback(d)) else None
      case RemoveRoleChooseRole =>
        if MatchesPrefixPattern("removerole_role:", d) || MatchesWordPattern("cancel", d) then Some(RemoveRoleCallback(d)) else None
      case _ => None)
  }

  /**
   * `ConversationHandler.check_update`: an inactive conversation accepts only
   * its entry command; an active one accepts its state's handlers and the
   * `/cancel` listed in every state and as the fallback.
   */
  function Accept(f: Flow, st: Option<State>, ev: Event): (r: Option<Handler>)
    ensures st.None? ==> (r.Some? <==> ev == Issued(EntryCommand(f)))
    ensures st.Some? && ev.Issued? ==> (r.Some? <==> ev.cmd == CancelCmd)
    ensures r.Some? && (st.Some? ==> FlowOf(st.value) == f) ==> r.value == Cancel || Owner(r.value) == Some(f)
  {
    match st
    case None => if ev == Issued(EntryCommand(f)) then Some(Entry(f)) else None
    case Some(s) => if ev == Issued(CancelCmd) then Some(Cancel) else StateHandler(s, ev)
  }

  datatype Routed = Routed(flow: Flow, handler: Handler)

  function AcceptBy(convs: map<Flow, State>, f: Flow, ev: Event): Option<Routed> {
    match Accept(f, Lookup(convs, f), ev)
    case None => None
    case Some(h) => Some(Routed(f, h))
  }

  /** The first conversation, in registration order, that accepts the update. */
  function Dispatch(convs: map<Flow, State>, ev: Event): (r: Option<Routed>)
    ensures r.Some? ==> Accept(r.value.flow, Lookup(convs, r.value.flow), ev) == Some(r.value.handler)
    ensures r.Some? ==> forall f :: Rank(f) < Rank(r.value.flow) ==> Accept(f, Lookup(convs, f), ev).None?
    ensures r.None? <==> forall f :: Accept(f, Lookup(convs, f), ev).None?
  {
    var a0 := AcceptBy(convs, SetRoleFlow, ev);
    var a1 := AcceptBy(convs, GetRoleFlow, ev);
    var a2 := AcceptBy(convs, DeleteRoleFlow, ev);
    var a3 := AcceptBy(convs, TagRoleFlow, ev);
    var a4 := AcceptBy(convs, AssignRoleFlow, ev);
    if a0.Some? then a0 else if a1.Some? then a1 else if a2.Some? then a2
    else if a3.Some? then a3 else if a4.Some? then a4
    else
      var a5 := AcceptBy(convs, RemoveRoleFlow, ev);
      if a5.None? then NoFlowAccepts(convs, ev); a5 else a5
  }

  lemma NoFlowAccepts(convs: map<Flow, State>, ev: Event)
    requires AcceptBy(convs, SetRoleFlow, ev).None? && AcceptBy(convs, GetRoleFlow, ev).None?
    requires AcceptBy(convs, DeleteRoleFlow, ev).None? && AcceptBy(convs, TagRoleFlow, ev).None?
    requires AcceptBy(convs, AssignRoleFlow, ev).None? && AcceptBy(convs, RemoveRoleFlow, ev).None?
    ensures forall f :: Accept(f, Lookup(convs, f), ev).None?
  {
    forall f ensures Accept(f, Lookup(convs, f), ev).None? {
      match f
      case SetRoleFlow =>
      case GetRoleFlow =>
      case DeleteRoleFlow =>
      case TagRoleFlow =>
      case AssignRoleFlow =>
      case RemoveRoleFlow =>
    }
  }

  function Advance(convs: map<Flow, State>, f: Flow, next: Next): map<Flow, State> {
    match next
    case Goto(s) => convs[f := s]
    case End => convs - {f}
    case Raised => convs
  }

  // -------------------------------------------------------------- handlers

  /** A handler of `f` moves, if anywhere, to a state of `f`. */
  predicate Within(o: Outcome, f: Flow) {
    o.next.Goto? ==> FlowOf(o.next.state) == f
  }

  /** The status check of the admin-only entry points; it fails closed. */
  function AdminGate(status: MemberStatus, rows: seq<Row>, admitted: Outcome): (r: Outcome)
    ensures IsAdmin(status) ==> r == admitted
    ensures !IsAdmin(status) ==> r.next == End && r.session == Cleared && r.rows == rows
  {
    if status.CheckRaised? then Outcome(Cleared, rows, End, RightsUnknown)
    else if !IsAdmin(status) then Outcome(Cleared, rows, End, NotAdmin)
    else admitted
  }

  /** A keyboard of the roles in use, or "no roles yet" and the end of the dialogue. */
  function RoleMenuOr(session: Session, rows: seq<Row>, s: State): Outcome {
    var roles := DistinctRoles(rows);
    if roles != [] then Outcome(session, rows, Goto(s), RoleMenu(roles))
    else Outcome(session, rows, End, NoRoles)
  }

  /** `setrole_start` (145-185). */
  function StartSetRole(rows: seq<Row>, env: Env): Outcome {
    AdminGate(env.status, rows, Outcome(Cleared, rows, Goto(SetRoleChooseOption), OptionMenu))
  }

  /** `getrole_start` (310-319). */
  function StartGetRole(rows: seq<Row>): Outcome {
    Outcome(Cleared, rows, Goto(GetRoleEnterUsername), AskUsername)
  }

  /** `deleterole_start` (355-387). */
  function StartDeleteRole(rows: seq<Row>, env: Env): Outcome {
    AdminGate(env.status, rows, Outcome(Cleared, rows, Goto(DeleteRoleSelectUser), AskUsernames))
  }

  /** `tagrole_start` (483-514). */
  function StartTagRole(rows: seq<Row>): Outcome {
    RoleMenuOr(Cleared, rows, TagRoleChooseRole)
  }

  /** `removerole_start` (646-701). */
  function StartRemoveRole(rows: seq<Row>, env: Env): Outcome {
    AdminGate(env.status, rows, RoleMenuOr(Cleared, rows, RemoveRoleChooseRole))
  }

  /** `assignrole_start` (749-780). */
  function StartAssignRole(rows: seq<Row>): Outcome {
    RoleMenuOr(Cleared, rows, AssignRoleChooseRole)
  }

  /** Every entry point clears the session, reads the table only, and stays in its own conversation. */
  function Start(f: Flow, rows: seq<Row>, env: Env): (r: Outcome)
    ensures r.session == Cleared && r.rows == rows && r.next != Raised && Within(r, f)
  {
    match f
    case SetRoleFlow => StartSetRole(rows, env)
    case GetRoleFlow => StartGetRole(rows)
    case DeleteRoleFlow => StartDeleteRole(rows, env)
    case TagRoleFlow => StartTagRole(rows)
    case AssignRoleFlow => StartAssignRole(rows)
    case RemoveRoleFlow => StartRemoveRole(rows, env)
  }

  /**
   * A "back" button calls the flow's start handler with a callback update:
   * it clears `user_data` and then raises on `update.message`, which is
   * `None` for a button press.
   */
  function Back(rows: seq<Row>): Outcome {
    Outcome(Cleared, rows, Raised, Silent)
  }

  /** `setrole_option_callback` (187-245). */
  function SetRoleOptionChosen(session: Session, rows: seq<Row>, data: string): (r: Outcome)
    ensures r.rows == rows && Within(r, SetRoleFlow)
    ensures data != "cancel" && data != "back" ==> r.session.setrole.Some?
    ensures data == "back" ==> r.session == Cleared && r.next == Raised
  {
    if data == "cancel" then Outcome(session, rows, End, PromptDismissed)
    else
      var s1 := session.(setrole := Some(None));
      if data == "setrole_existing" then RoleMenuOr(s1, rows, SetRoleChooseOption)
      else if data == "setrole_new" then Outcome(s1, rows, Goto(SetRoleEnterRoleName), AskRoleName)
      else if StartsWith(data, "setrole_role:") then
        match AfterFirstColon(data)
        case None => Outcome(s1, rows, Raised, Silent)
        case Some(role) => Outcome(s1.(setrole := Some(Some(role))), rows, Goto(SetRoleSelectUser), RoleChosen(role))
      else if data == "back" then Back(rows)
      else Outcome(s1, rows, End, UnknownCommand)
  }

  /** `setrole_new_role_name` (247-256); a missing `setrole` entry raises KeyError. */
  function SetRoleNameTyped(session: Session, rows: seq<Row>, text: string): (r: Outcome)
    ensures r.rows == rows && Within(r, SetRoleFlow)
  {
    var name := Strip(text);
    if name == [] then Outcome(session, rows, Goto(SetRoleEnterRoleName), EmptyRoleName)
    else if session.setrole.None? then Outcome(session, rows, Raised, Silent)
    else Outcome(session.(setrole := Some(Some(name))), rows, Goto(SetRoleSelectUser), RoleCreated(name))
  }

  /** The rows after the loop of `setrole_select_user` (272-283) over the first tokens. */
  function AssignAll(rows: seq<Row>, tokens: seq<string>, role: string): (r: seq<Row>)
    ensures forall x :: x in rows ==> x in r
  {
    if tokens == [] then rows
    else
      var prev := AssignAll(rows, tokens[..|tokens| - 1], role);
      var u := StripAt(tokens[|tokens| - 1]);
      if u != [] then Insert(prev, Fold(u), role) else prev
  }

  /** The rows after the loop of `deleterole_role_callback` (442-453). */
  function RevokeAll(rows: seq<Row>, tokens: seq<string>, role: string): (r: seq<Row>)
    ensures forall x :: x in r ==> x in rows
  {
    if tokens == [] then rows
    else
      var prev := RevokeAll(rows, tokens[..|tokens| - 1], role);
      var u := StripAt(tokens[|tokens| - 1]);
      if u != [] then DeleteUserRole(prev, Fold(u), role) else prev
  }

  /** `success_users` of both loops: `@name` for every token that is more than a bare '@'. */
  function Successes(tokens: seq<string>): (r: seq<string>)
    ensures |r| <= |tokens|
    ensures forall m :: m in r ==> |m| > 1 && m[0] == '@'
  {
    if tokens == [] then []
    else
      var prev := Successes(tokens[..|tokens| - 1]);
      var u := StripAt(tokens[|tokens| - 1]);
      if u != [] then prev + ["@" + u] else prev
  }

  /** `failed_users` of both loops: what is left of a bare '@', the empty string. */
  function Failures(tokens: seq<string>): (r: seq<string>)
    ensures |r| <= |tokens|
    ensures forall m :: m in r ==> m == []
  {
    if tokens == [] then []
    else
      var prev := Failures(tokens[..|tokens| - 1]);
      var u := StripAt(tokens[|tokens| - 1]);
      if u != [] then prev else prev + [u]
  }

  /** `setrole_select_user` (258-307). */
  function SetRoleUsersTyped(session: Session, rows: seq<Row>, text: string): (r: Outcome)
    ensures r.session == session && Within(r, SetRoleFlow)
    ensures r.rows != rows ==> r.next == End
  {
    match session.setrole
    case None => Outcome(session, rows, Raised, Silent)
    case Some(entry) =>
      if entry.None? || entry.value == [] then Outcome(session, rows, End, RoleNotFound)
      else
        var role := entry.value;
        var tokens := SplitWs(text);
        if tokens == [] then Outcome(session, rows, Goto(SetRoleSelectUser), NoUsernamesGiven)
        else Outcome(session, AssignAll(rows, tokens, role), End, Assigned(role, Successes(tokens), Failures(tokens)))
  }

  /** `getrole_enter_username` (321-352). */
  function GetRoleUsernameTyped(session: Session, rows: seq<Row>, text: string): (r: Outcome)
    ensures r.session == session && r.rows == rows && r.next == End
  {
    var u := StripAt(Strip(text));
    var roles := RolesOf(rows, Fold(u));
    if roles != [] then Outcome(session, rows, End, UserRoles(u, roles))
    else Outcome(session, rows, End, UserHasNoRoles(u))
  }

  /** `deleterole_select_user` (389-417). */
  function DeleteRoleUsersTyped(session: Session, rows: seq<Row>, text: string): (r: Outcome)
    ensures r.rows == rows && Within(r, DeleteRoleFlow)
  {
    var tokens := SplitWs(text);
    if tokens == [] then Outcome(session, rows, Goto(DeleteRoleSelectUser), NoUsernamesGiven)
    else RoleMenuOr(session.(deleterole := Some(tokens)), rows, DeleteRoleSelectRole)
  }

  /**
   * `deleterole_role_callback` (419-480). It has no branch for "cancel",
   * although `main` routes that payload to it (938).
   */
  function DeleteRoleChosen(session: Session, rows: seq<Row>, data: string): (r: Outcome)
    ensures !r.next.Goto? && (r.rows != rows ==> r.next == End)
    ensures r.next != Raised ==> r.session == session
    ensures data == "back" ==> r.session == Cleared && r.next == Raised
  {
    if data == "back" then Back(rows)
    else if StartsWith(data, "deleterole_role:") then
      match AfterFirstColon(data)
      case None => Outcome(session, rows, Raised, Silent)
      case Some(role) =>
        match session.deleterole
        case None => Outcome(session, rows, Raised, Silent)
        case Some(tokens) =>
          if tokens == [] then Outcome(session, rows, End, UsersNotFound)
          else Outcome(session, RevokeAll(rows, tokens, role), End, Unassigned(role, Successes(tokens), Failures(tokens)))
    else Outcome(session, rows, End, UnknownCommand)
  }

  /** The mention for every holder of exactly `role` (554-562). */
  function MentionSet(users: seq<string>): set<string> {
    set u | u in users :: "@" + u
  }

  /** `tagrole_choose_role` (516-579). */
  function TagRoleChosen(session: Session, rows: seq<Row>, data: string): (r: Outcome)
    ensures r.rows == rows && !r.next.Goto?
  {
    if data == "cancel" then Outcome(session, rows, End, PromptDismissed)
    else if StartsWith(data, "tagrole_role:") then
      match AfterFirstColon(data)
      case None => Outcome(session, rows, Raised, Silent)
      case Some(role) =>
        var s1 := session.(tagrole := Some(role));
        var users := UsersWithRole(rows, role);
        if users != [] then Outcome(s1, rows, End, Members(role, MentionSet(users)))
        else Outcome(s1, rows, End, NoMembers(role))
    else Outcome(session, rows, End, UnknownCommand)
  }

  /** `removerole_choose_role` (703-747). */
  function RemoveRoleChosen(session: Session, rows: seq<Row>, data: string): (r: Outcome)
    ensures r.session == session && !r.next.Goto? && (r.rows != rows ==> r.next == End)
  {
    if data == "cancel" then Outcome(session, rows, End, PromptDismissed)
    else if StartsWith(data, "removerole_role:") then
      match AfterFirstColon(data)
      case None => Outcome(session, rows, Raised, Silent)
      case Some(role) => Outcome(session, DeleteRole(rows, role), End, RoleRemoved(role))
    else Outcome(session, rows, End, UnknownCommand)
  }

  /** `assignrole_choose_role` (782-813): the chosen role is lower-cased. */
  function AssignRoleChosen(session: Session, rows: seq<Row>, data: string): (r: Outcome)
    ensures r.rows == rows && Within(r, AssignRoleFlow)
    ensures r.next.Goto? ==> r.session.assignrole.Some? && Fold(r.session.assignrole.value) == r.session.assignrole.value
  {
    if data == "cancel" then Outcome(session, rows, End, PromptDismissed)
    else if StartsWith(data, "assignrole_role:") then
      match AfterFirstColon(data)
      case None => Outcome(session, rows, Raised, Silent)
      case Some(role) =>
        var folded := Fold(role);
        FoldIdempotent(role);
        Outcome(session.(assignrole := Some(folded)), rows, Goto(AssignRoleConfirm), ConfirmSelfAssign(folded))
    else Outcome(session, rows, End, UnknownCommand)
  }

  /** `assignrole_confirm` (815-873). */
  function AssignRoleConfirmed(session: Session, rows: seq<Row>, data: string, env: Env): (r: Outcome)
    ensures r.session == session && !r.next.Goto? && (r.rows != rows ==> r.next == End)
  {
    if data == "assignrole_confirm_yes" then
      match session.assignrole
      case None => Outcome(session, rows, Raised, Silent)
      case Some(role) =>
        if role == [] then Outcome(session, rows, End, RoleNotFound)
        else if env.username.None? || env.username.value == [] then Outcome(session, rows, End, NoUsername)
        else Outcome(session, Insert(rows, Fold(env.username.value), role), End, SelfAssigned(role))
    else if data == "assignrole_confirm_no" then Outcome(session, rows, End, SelfAssignDeclined)
    else Outcome(session, rows, End, UnknownCommand)
  }

  /** `cancel` (581-601). */
  function CancelDialogue(rows: seq<Row>): (r: Outcome)
    ensures r.session == Cleared && r.rows == rows && r.next == End
  {
    Outcome(Cleared, rows, End, Cancelled)
  }

  /** `list_roles` (111-142). */
  function ListRoles(rows: seq<Row>): (r: Reply)
    ensures r == NoRolesAssigned <==> rows == []
    ensures r != NoRolesAssigned ==> r == RosterReply(Roster(rows))
  {
    if DistinctRoles(rows) == [] then NoRolesAssigned else RosterReply(Roster(rows))
  }

  /**
   * The handler routed to: it moves only to states of its own conversation,
   * `/cancel` ends the dialogue, and a change to the table always comes with
   * the end of the dialogue that made it.
   */
  function Run(h: Handler, session: Session, rows: seq<Row>, env: Env): (r: Outcome)
    ensures r.next.Goto? ==> Owner(h) == Some(FlowOf(r.next.state))
    ensures h == Cancel ==> r.next == End
    ensures r.rows != rows ==> r.next == End
  {
    match h
    case Entry(f) => Start(f, rows, env)
    case Cancel => CancelDialogue(rows)
    case OptionCallback(d) => SetRoleOptionChosen(session, rows, d)
    case NewRoleName(t) => SetRoleNameTyped(session, rows, t)
    case SelectUsers(t) => SetRoleUsersTyped(session, rows, t)
    case EnterUsername(t) => GetRoleUsernameTyped(session, rows, t)
    case DeleteSelectUsers(t) => DeleteRoleUsersTyped(session, rows, t)
    case DeleteRoleCallback(d) => DeleteRoleChosen(session, rows, d)
    case TagRoleCallback(d) => TagRoleChosen(session, rows, d)
    case AssignRoleCallback(d) => AssignRoleChosen(session, rows, d)
    case ConfirmCallback(d) => AssignRoleConfirmed(session, rows, d, env)
    case RemoveRoleCallback(d) => RemoveRoleChosen(session, rows, d)
  }

  // ------------------------------------------------------------------ step

  /** Everything one user's updates act on. */
  datatype Config = Config(convs: map<Flow, State>, session: Session, rows: seq<Row>)

  datatype Turn = Turn(after: Config, reply: Reply)

  /** The group-0 handling of one update. */
  function Step(c: Config, ev: Event, env: Env): (t: Turn)
    ensures (ev == Issued(RolesCmd) || ev == Issued(StartCmd) || ev == Issued(HelpCmd)) ==> t.after == c
    ensures !ev.Issued? && Dispatch(c.convs, ev).None? ==> t == Turn(c, Silent)
    ensures t.after.rows != c.rows ==> Dispatch(c.convs, ev).Some? && t.after.convs == c.convs - {Dispatch(c.convs, ev).value.flow}
  {
    match ev
    case Issued(RolesCmd) => Turn(c, ListRoles(c.rows))
    case Issued(StartCmd) => Turn(c, Welcome)
    case Issued(HelpCmd) => Turn(c, HelpText)
    case _ =>
      match Dispatch(c.convs, ev)
      case None => Turn(c, Silent)
      case Some(Routed(f, h)) =>
        var o := Run(h, c.session, c.rows, env);
        Turn(Config(Advance(c.convs, f, o.next), o.session, o.rows), o.reply)
  }
}
