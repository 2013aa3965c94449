# Role distributor bot: a verified model of its core

`roledistributor.py` is a Telegram group bot. It keeps a table of
`(username, role)` pairs in SQLite and lets members do the following:

- assign and revoke roles (`/setrole`, `/deleterole`, admins only);
- delete a role outright (`/removerole`, admins only);
- take a role themselves (`/assignrole`);
- list the roles of a user (`/getrole`) or of the whole chat (`/roles`);
- mention every holder of a role (`/tagrole`), or write `@role` in any
  message, after which the bot replies with the mentions of that role's
  holders.

This project models the logic under the Telegram plumbing and proves
properties of it in Dafny.

| file | module | what it holds |
|---|---|---|
| `wrappers.dfy` | `Wrappers` | `Option` |
| `seqs.dfy` | `Seqs` | duplicate-free sequences, `Dedup` (what `list(set(...))` keeps), `Filter` |
| `text.dfy` | `Text` | input handling: case fold, `strip()`, `split()`, the one leading `@`, `data.split(':', 1)[1]`, the anchored callback patterns, `re.findall(r'@(\w+)')` |
| `table.dfy` | `Table` | the `roles` table as a sequence of rows; each SQL statement as a function |
| `table_facts.dfy` | `TableFacts` | uniqueness, idempotence, exact against folded matching |
| `store.dfy` | `RoleStore` | `class Store`: the database, one method per SQL statement, the unique index as its invariant |
| `mentions.dfy` | `Mentions` | `role_mention_handler` as a loop method |
| `dialogue.dfy` | `Dialogue` | the ten states; routing updates to the six conversations; every handler's outcome; one `Step` |
| `loops.dfy` | `LoopFacts` | what the two username loops do to the table and to the reported lists |
| `dialogue_facts.dfy` | `DialogueFacts` | routing, entry and cancel, the admin check, per-handler effects, the invariant every update keeps |
| `bot.dfy` | `Bot` | `class Bot`: store, conversation states and session, updated in place by `Handle`, which is proved equal to `Step` |

## How the model reads the code

- **Table and matching.** The unique index is on `(username, LOWER(role))`.
  An insert is therefore ignored when the same username already holds the
  role in any letter case. `DELETE … WHERE role = ?` and the `/tagrole` query
  compare the role string exactly. Only the mention lookup compares folded
  roles.
- **Conversation state.** Each of the six `ConversationHandler`s keeps its
  own state per user.
  - An update goes to the first conversation, in registration order, that
    accepts it.
  - An inactive conversation accepts only its own entry command.
  - An active conversation accepts its state's handlers and `/cancel`.
  - The entry command of an active conversation is dropped.
- **Exceptions.** When a handler raises, its conversation keeps its state.
  This is modelled as `Raised`. It happens in two ways:
  - a `KeyError` on a session entry that is missing;
  - a "back" button: the start handler clears the session and then reads
    `update.message`, which is `None` for a button press.

  An exception in group 0 does not stop group 1: the mention handler still
  runs on the same text.
- **Stale conversations.** Every entry command clears the whole session,
  but it does not end the other conversations. Consider a user who reaches
  the `/setrole` role-name prompt and then starts `/getrole`. From then on,
  `/setrole` still reaches every non-blank text first and raises on it, so
  `/getrole` never sees the username. The lemmas `StaleRoleNamePrompt` and
  `StaleRoleNameExample` state this.
- **Leftover buttons.** Only two buttons read the session, and a leftover
  one raises `KeyError` and changes nothing:
  - the `/deleterole` role button (430-434, `StaleDeleteRoleButton`);
  - the "yes" button of the self-assign confirmation (820-821,
    `SelfAssignConfirm`).

  The `/tagrole`, `/assignrole` and `/removerole` role buttons do not read
  the session, so a leftover one still acts. A leftover `/removerole`
  button still deletes its role: `RemoveRoleDeletes` holds for every
  session.
- **Cancel and back buttons.** Only the `/cancel` command clears the
  session and answers "operation cancelled". A cancel button just dismisses
  the prompt and keeps the session. In `/deleterole` the cancel button
  reaches a handler that has no branch for it (`DeleteRoleCancelQuirk`). A
  "back" button does not re-run the flow's setup: it clears the session
  and raises, as described above.
- **Stated intent and what the code does.** The source's comments state
  two intentions that the code does not carry out, and the model follows
  the code:
  - Every entry point is commented "automatic cancellation of the previous
    dialogue" (146, 311, 356, 484, 647, 750). It clears the session, but
    the other conversations stay active (`StaleRoleNamePrompt`,
    `StaleRoleNameExample`).
  - The "back" branch of the `/setrole` option menu is commented "return
    to the option choice" (237). It clears the session and raises instead,
    so the option menu is not shown again. The contracts of
    `SetRoleOptionChosen` and `DeleteRoleChosen` state this.

## Model

| member | source | states |
|---|---|---|
| Seqs.Dedup | roledistributor.py:635 | `list(set(...))`: the result has no duplicates and exactly the same members as the input, and is no longer |
| Text.Fold | roledistributor.py:278 | Python's `lower()` and SQLite's `LOWER`, read as one ASCII fold: 'A'..'Z' become 'a'..'z', and every other character is kept |
| Text.FoldIdempotent | roledistributor.py:278 | a stored lower-cased name is its own fold, and folding keeps length; so a non-empty username stays non-empty |
| Text.IsSpace | roledistributor.py:248 | the white-space set of `str.isspace()`, which `strip()` and `split()` use: the ASCII controls 9-13 and 28-32, and the Unicode spaces from U+0085 to U+3000 |
| Text.Strip | roledistributor.py:248 | `strip()`: empty exactly for blank input; otherwise it starts and ends with a non-space character; it is the input with a blank prefix and a blank suffix removed |
| Text.SplitWs | roledistributor.py:264 | `split()`: every token is non-empty and free of white space |
| Text.SplitSkipsBlank | roledistributor.py:264 | leading white space gives no token |
| Text.SplitTakesWord | roledistributor.py:264 | a token closed by white space or by the end comes back whole and first, so each token is a maximal non-space run |
| Text.SplitAtSpace | roledistributor.py:390 | `split()` cuts at every white-space character: `split(a + c + b)` is `split(a) + split(b)`; with the two lemmas above this fixes `split()` completely |
| Text.BlankInput | roledistributor.py:264-267 | `split()` gives no token, and `strip()` gives the empty string, exactly when the text is blank |
| Text.SplitKeepsText | roledistributor.py:390 | the tokens, concatenated, are the input's non-space characters in order: `split()` drops only white space |
| Text.ColonIndex | roledistributor.py:232 | finds the first ':' of the payload, or reports there is none |
| Text.StripAt | roledistributor.py:273-274 | exactly one leading '@' goes when there is one; otherwise the name is unchanged |
| Text.AfterFirstColon | roledistributor.py:432 | `data.split(':', 1)[1]`: nothing (the IndexError) exactly when there is no ':'; otherwise everything after the first ':' |
| Text.PayloadRoundTrip | roledistributor.py:432 | `data.split(':', 1)[1]` on `prefix:value` gives `value` whole, colons included, when the prefix has no ':' |
| Text.MatchesPrefixPattern | roledistributor.py:896-897 | a `'^prefix.*$'` callback pattern: the data starts with the prefix and has no line break after it, except a single final "\n" that `$` lets through |
| Text.MatchesWordPattern | roledistributor.py:897 | a one-word callback pattern such as `'^cancel$'`: the data is the word, possibly followed by one "\n" |
| Text.FindMentions | roledistributor.py:609-610 | `re.findall(r'@(\w+)')`: every match is a non-empty run of word characters |
| Text.FindMentionsSound | roledistributor.py:610 | every match stands in the text right after an '@' and cannot be extended by another word character |
| Text.FindMentionsComplete | roledistributor.py:610 | every '@' followed by a word character yields a match, the maximal word run after it; with `FindMentionsSound`, the matched words are exactly the mentions in the text |
| Text.MentionWordAt | roledistributor.py:610 | the word run after an '@' stands there as a mention that no further word character extends |
| Text.MentionWordFound | roledistributor.py:610 | the left-to-right scan returns the word run after every '@' that a word character follows; a match ends where the word characters end, so the scan never steps over such an '@' |
| Text.NoAtNoMentions | roledistributor.py:612 | text without '@' yields no match, so the handler does nothing |
| Table.Insert | roledistributor.py:278 | `INSERT OR IGNORE`: keeps the unique index; afterwards the key is held; the table is unchanged exactly when the key was already held; no row is lost and only `Row(u, r)` can be new |
| Table.DeleteUserRole | roledistributor.py:448 | `DELETE … WHERE username = ? AND role = ?`: keeps every row except those with that username and that exact role string; `TableFacts.DeleteUserRoleEffect` states its effect |
| Table.DeleteRole | roledistributor.py:726 | `DELETE … WHERE role = ?`: keeps every row whose role string differs from the argument; `TableFacts.DeleteRoleEffect` states its effect |
| Table.DistinctRoles | roledistributor.py:210 | `SELECT DISTINCT role`: every stored role string, once each |
| Table.HoldersOf | roledistributor.py:125 | `SELECT username … WHERE role = ?`: exactly the users with a row of that exact role |
| Table.UsersWithRole | roledistributor.py:554 | the same with `DISTINCT`: no duplicates |
| Table.UsersWithFoldedRole | roledistributor.py:625 | `WHERE LOWER(role) = ?`: exactly the users holding a role whose fold is the key, once each |
| Table.RolesOf | roledistributor.py:328 | `SELECT role … WHERE username = ?`: exactly the roles of rows with that username |
| Table.Roster | roledistributor.py:118-133 | one entry per distinct role in use, each listing exactly the users who hold that exact role |
| TableFacts.InsertTwiceOneRow | roledistributor.py:53-54 | inserting a pair again, or with the role in another case, changes nothing; exactly one row has that key |
| TableFacts.DeleteUserRoleEffect | roledistributor.py:448 | exact-match delete removes exactly `Row(u, r)`, keeps the index, is a no-op when the row is absent, and leaves `r` out of `u`'s roles |
| TableFacts.DeleteRoleEffect | roledistributor.py:726 | `DELETE … WHERE role = ?` keeps the index; nobody holds the exact string afterwards; rows with any other role string are untouched |
| TableFacts.AddThenRemove | roledistributor.py:448 | a new pair, inserted and then deleted, is gone from the user's roles |
| TableFacts.RolesOfFoldDistinct | roledistributor.py:328 | a user's roles are pairwise distinct even up to case, because of the index |
| TableFacts.HoldersDistinct | roledistributor.py:125 | the roster query lists each holder of a role once, even without `DISTINCT` |
| TableFacts.ExactWithinFolded | roledistributor.py:625 | whoever the exact-case lookup finds, the folded lookup finds too |
| TableFacts.ExactVersusFolded | roledistributor.py:726 | for the row `("alice", "Dev")`, deleting or tagging "dev" finds nothing, while the mention lookup finds alice |
| RoleStore.Store.constructor | roledistributor.py:48-56 | a new database: an empty table that meets the index |
| RoleStore.Store.InsertOrIgnore | roledistributor.py:278 | the table becomes `Insert` of the old one and keeps the index |
| RoleStore.Store.DeleteUserRole | roledistributor.py:448 | the table becomes `DeleteUserRole` of the old one and keeps the index |
| RoleStore.Store.DeleteRole | roledistributor.py:726 | the table becomes `DeleteRole` of the old one and keeps the index |
| RoleStore.Store.SelectDistinctRoles | roledistributor.py:400 | returns `DistinctRoles` of the table: every stored role string, once each |
| RoleStore.Store.SelectHolders | roledistributor.py:125 | returns `HoldersOf` of the table: exactly the users with a row of that exact role |
| RoleStore.Store.SelectUsersWithRole | roledistributor.py:554 | returns `UsersWithRole` of the table: exactly the users with a row of that exact role, once each |
| RoleStore.Store.SelectUsersWithFoldedRole | roledistributor.py:625 | returns `UsersWithFoldedRole` of the table: exactly the users holding a role whose fold is the key, once each |
| RoleStore.Store.SelectRolesOf | roledistributor.py:328 | returns `RolesOf` of the table: exactly the roles of rows with that username |
| Mentions.ResolveMentions | roledistributor.py:604-639 | each folded `@token` is looked up once, in first-occurrence order; no reply exactly when no stored role matches any token case-insensitively; otherwise the reply holds each holder's mention exactly once, and only those |
| Mentions.MentionsForTokens | roledistributor.py:616-631 | looking up the folded keys mentions exactly the holders of a role some token names, ignoring case |
| Dialogue.Accept | roledistributor.py:892-997 | an inactive conversation takes only its entry command; an active one takes no command but `/cancel`; whatever it takes belongs to it |
| Dialogue.Dispatch | roledistributor.py:892-997 | the update goes to a conversation that accepts it, and no earlier one accepts it; nothing is routed exactly when no conversation accepts it |
| Dialogue.AdminGate | roledistributor.py:156-173 | an administrator or creator goes on; anyone else, or a failed status lookup, ends the dialogue with a cleared session and the table untouched |
| Dialogue.Start | roledistributor.py:145-185 | each entry point (`setrole_start` here, the other five alike) clears the session, only reads the table, never raises, and moves only to its own states |
| Dialogue.SetRoleOptionChosen | roledistributor.py:187-245 | the option menu never touches the table and stays in `/setrole`; every option but cancel and back records `setrole` in the session; "back" clears the session and raises instead of showing the menu again |
| Dialogue.SetRoleNameTyped | roledistributor.py:247-256 | the role-name step never touches the table and stays in `/setrole` |
| Dialogue.AssignAll | roledistributor.py:272-283 | the assign loop loses no row |
| Dialogue.RevokeAll | roledistributor.py:442-453 | the revoke loop adds no row |
| Dialogue.Successes | roledistributor.py:272-283 | at most one success per token, each an '@' and a non-empty name |
| Dialogue.Failures | roledistributor.py:272-283 | at most one failure per token, each the empty string left of a bare '@' |
| Dialogue.SetRoleUsersTyped | roledistributor.py:258-307 | the username step keeps the session, stays in `/setrole`, and changes the table only when it ends the dialogue |
| Dialogue.GetRoleUsernameTyped | roledistributor.py:321-352 | the lookup always ends the dialogue and changes neither the session nor the table |
| Dialogue.DeleteRoleUsersTyped | roledistributor.py:389-417 | the username step never touches the table and stays in `/deleterole` |
| Dialogue.DeleteRoleChosen | roledistributor.py:419-480 | the role button never moves to another state; it changes the table only when it ends the dialogue, and the session only when it raises; "back" clears the session and raises |
| Dialogue.TagRoleChosen | roledistributor.py:516-579 | the role choice never touches the table and always ends or raises |
| Dialogue.RemoveRoleChosen | roledistributor.py:703-747 | the role choice keeps the session, always ends or raises, and changes the table only when it ends |
| Dialogue.AssignRoleChosen | roledistributor.py:782-813 | the role choice never touches the table, stays in `/assignrole`, and when it goes on it has stored a lower-cased role |
| Dialogue.AssignRoleConfirmed | roledistributor.py:815-873 | the confirmation keeps the session, always ends or raises, and changes the table only when it ends |
| Dialogue.CancelDialogue | roledistributor.py:581-601 | `/cancel` clears the session, ends the dialogue and leaves the table alone |
| Dialogue.ListRoles | roledistributor.py:111-142 | "no roles assigned" exactly when the table is empty; otherwise the roster |
| Dialogue.Run | roledistributor.py:892-997 | a routed handler moves only to states of its own conversation, `/cancel` ends the dialogue, and a change to the table comes only with the end of the dialogue that made it |
| Dialogue.Step | roledistributor.py:876-997 | `/roles`, `/start` and `/help` change nothing; an update no conversation takes is silent and changes nothing; when the table changes, the conversation that changed it has ended and no other state moved |
| LoopFacts.AssignAllEffect | roledistributor.py:272-283 | the assign loop keeps the table well formed; it keeps every row, adds only rows of the chosen role for listed lower-cased usernames, and leaves every such user holding the role |
| LoopFacts.RevokeAllEffect | roledistributor.py:442-453 | the revoke loop removes exactly the rows that have the chosen exact role string and a listed lower-cased username |
| LoopFacts.ReportedOnce | roledistributor.py:272-283 | every token is reported once: as `@name` when something is left after its '@', otherwise as a failure, which is the empty string |
| LoopFacts.FailuresAreBareAts | roledistributor.py:264-283 | with tokens from `split()`, the failures are exactly the bare '@' tokens |
| DialogueFacts.EntryCommandRouting | roledistributor.py:892-912 | an entry command reaches its own conversation exactly when that one is inactive, and is dropped otherwise |
| DialogueFacts.CancelRouting | roledistributor.py:909 | `/cancel` reaches the first active conversation, and nothing when none is active |
| DialogueFacts.TextRouting | roledistributor.py:898-905 | plain text reaches the first conversation waiting for text, and nothing when none waits |
| DialogueFacts.EntryIgnoredWhileActive | roledistributor.py:892-912 | re-issuing the entry command of an active conversation changes nothing |
| DialogueFacts.EntryRestarts | roledistributor.py:147 | every entry clears the session and leaves the table and the other conversations as they were |
| DialogueFacts.AdminGateFailsClosed | roledistributor.py:156-173 | the admin-only entries go on only for `administrator`/`creator`; a failed status lookup ends the dialogue; the table is untouched |
| DialogueFacts.CancelEndsFirstActive | roledistributor.py:581-601 | `/cancel` ends the first active conversation, clears the session and keeps the table |
| DialogueFacts.BlankRoleNameReprompts | roledistributor.py:247-256 | the role-name prompt repeats exactly for blank text; otherwise the stripped name is kept; the table is untouched |
| DialogueFacts.BlankUsernamesReprompt | roledistributor.py:264-267 | with a role chosen, `/setrole`'s username prompt repeats exactly for blank text, and changes nothing then |
| DialogueFacts.DeleteRoleUsernamesKept | roledistributor.py:389-417 | for every session, `/deleterole`'s username prompt repeats exactly for blank text; otherwise the tokens are kept in the session; the table is untouched |
| DialogueFacts.SetRoleAssigns | roledistributor.py:258-307 | typed usernames get the chosen role, with the success and failure lists of the loop |
| DialogueFacts.DeleteRoleRevokes | roledistributor.py:430-453 | choosing a role revokes exactly that role string from exactly the typed users |
| DialogueFacts.DeleteRoleCancelQuirk | roledistributor.py:478-480 | a "cancel" press in the role choice of `/deleterole` ends it as an unknown command and changes nothing else |
| DialogueFacts.CancelButtonRouted | roledistributor.py:892-938 | at the `/deleterole` role menu, and unless `/setrole` shows its option menu, a "cancel" press goes to `deleterole_role_callback` |
| DialogueFacts.TagMentionsHolders | roledistributor.py:533-576 | `/tagrole` mentions exactly the holders of the exact role string, or says there are none exactly when nobody holds it |
| DialogueFacts.RemoveRoleDeletes | roledistributor.py:720-728 | `/removerole` deletes exactly the rows of the chosen role string |
| DialogueFacts.AssignRoleFolds | roledistributor.py:799-811 | the self-assign flow stores the chosen role lower-cased and asks for confirmation |
| DialogueFacts.SelfAssignConfirm | roledistributor.py:815-873 | only "yes", with a role in the session and a username, changes the table, and then the user holds the role; "no" declines; "yes" without the session entry raises and changes nothing |
| DialogueFacts.UnknownOptionEnds | roledistributor.py:243-245 | any other `setrole_` payload ends the dialogue as an unknown command, leaving `{}` in the session |
| DialogueFacts.UnknownPayloadEnds | roledistributor.py:478-480 | an unknown payload ends every menu and confirmation dialogue with nothing else changed |
| DialogueFacts.GetRoleReports | roledistributor.py:321-339 | `/getrole` reports exactly the roles of the lower-cased name, distinct up to case, or says there are none exactly when it holds none |
| DialogueFacts.StaleDeleteRoleButton | roledistributor.py:430-434 | a leftover role button of a `/deleterole` whose session was cleared raises, so nothing changes |
| DialogueFacts.RoleButtonRoundTrip | roledistributor.py:218 | a role button gives its role back whole; it is accepted by the handler's pattern exactly when the role has no line break before its last character |
| DialogueFacts.StaleRoleNamePrompt | roledistributor.py:253 | a role-name prompt whose session was cleared swallows every non-blank text, raising, so nothing changes |
| DialogueFacts.StaleRoleNameExample | roledistributor.py:147-253 | `/setrole`, "new role", `/getrole`, then "alice": both conversations stay waiting and the text changes nothing |
| DialogueFacts.StepInvariant | roledistributor.py:876-997 | every update keeps the table well formed (index, lower-cased non-empty usernames, non-empty roles) and every conversation in its own states; it changes at most one conversation's state |
| DialogueFacts.RoutedWithin | roledistributor.py:892-997 | the handler an update is routed to moves, if at all, to a state of the conversation that routed it |
| Bot.Bot.constructor | roledistributor.py:48-56 | an empty database, no active conversation, an empty session |
| Bot.Bot.AssignUsers | roledistributor.py:272-283 | the loop leaves the table at `AssignAll` of the old one and returns the `Successes` and `Failures` lists |
| Bot.Bot.RevokeUsers | roledistributor.py:442-453 | the loop leaves the table at `RevokeAll` of the old one with the same lists |
| Bot.Bot.ListRolesCommand | roledistributor.py:111-133 | the loop builds one roster entry per role in use, with its holders, or says that no role is assigned |
| Bot.Bot.RunHandler | roledistributor.py:258-873 | the handlers run in place on the store and the session give exactly the outcome `Dialogue.Run` describes, and leave the conversation states alone |
| Bot.Bot.SetRoleUsersTyped | roledistributor.py:258-307 | run on the store, `setrole_select_user` gives the outcome `Dialogue.SetRoleUsersTyped` describes |
| Bot.Bot.DeleteRoleChosen | roledistributor.py:419-480 | run on the store and the session, `deleterole_role_callback` gives the outcome `Dialogue.DeleteRoleChosen` describes, conversation states untouched |
| Bot.Bot.RemoveRoleChosen | roledistributor.py:703-747 | run on the store, `removerole_choose_role` gives the outcome `Dialogue.RemoveRoleChosen` describes |
| Bot.Bot.AssignRoleConfirmed | roledistributor.py:815-873 | run on the store, `assignrole_confirm` gives the outcome `Dialogue.AssignRoleConfirmed` describes |
| Bot.Bot.Handle | roledistributor.py:876-997 | one update changes the store, the conversations and the session exactly as `Step` says, keeping the invariant; a text message then gets the mention handler's reply on the resulting table |

## Left out

- Telegram I/O is not modelled:
  - the wording of messages and the layout of the roster text;
  - keyboards;
  - answering callbacks;
  - deleting messages, and the message ids kept in the session for that;
  - the 64-byte limit on callback data.
  The admin check and the sender's username are inputs (`Env`).
- SQLite is replaced by the in-memory table:
  - connections, commits and failures are not modelled;
  - the `except` branch of `list_roles` is not modelled;
  - `init_db` is modelled only as an empty table.
- Reading the bot token from the environment is not modelled.
- Case folding and `\w` are read as ASCII only. Python's `str.lower()` and
  `\w` are Unicode-aware, but SQLite's `LOWER` folds only ASCII. One fold
  stands for both, and `IsWordChar` accepts only ASCII letters, digits and
  '_'. So the model does not capture non-ASCII roles. For example, the
  source finds `@роль` with `re.findall(r'@(\w+)')` (609-610) and mentions
  the holders of a stored lower-case role "роль", which `LOWER` leaves
  unchanged. The model finds no mention in that text.
- Mentions.ResolveMentions: states the members of the reply, not their
  order, because `list(set(...))` gives no order.
- Text.FindMentions: the two lemmas about it fix which words are matched;
  the order of the matches and how often a repeated word is listed are not
  stated as properties, only defined.
- Query results come in the order SQLite happens to return them, which it
  does not promise without `ORDER BY`. The model returns rows in insertion
  order, and no property proved here depends on that order.
- The `/tagrole` reply is a set of mentions, for the same reason.
- `/start` and `/help` are modelled only as replies. They do not touch the
  conversations, and the message id they store is not modelled.
- Telegram decides what counts as a command (`Filters.command`). A text
  event is always a non-command message, and every command is one of the
  names the bot registers, or `OtherCmd`.
- Concurrent updates are not modelled, and neither are users, chats or the
  per-chat keying of conversations. The model follows one user in one chat,
  one update at a time.
- Edited messages are not an event of the model. `Filters.text` and
  `CommandHandler` also pass edited messages, and every handler reads
  `update.message`, which is `None` for an edit:
  - an edited text, `/cancel`, `/roles`, `/start` or `/help` raises before
    it changes anything (60, 100, 113, 248, 261-264, 322, 390, 582, 604-605);
  - an edited entry command first clears the session (147, 312, 357, 485,
    648, 751) and then raises (150, 315, 360, 488, 651, 754). The other
    conversations stay in their states, so a role chosen in `/setrole` is
    lost and the next username text raises `KeyError`. This is the session
    `Cleared` with the next step `Raised`; the model has no such event.
- The conversations' timeouts and persistence are not modelled; the bot
  configures neither.
