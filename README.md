# Dream11 leaderboard bot, modelled in Dafny

The bot keeps a fantasy-cricket "win" leaderboard for a Discord server.
Users type `!win <username> <match_number>` to give a player one point for
winning a match. `!d11` shows the leaderboard and `!tdy` lists today's
fixtures. Admins can `!undo` the latest point, `!clearpoints`, and read the
`!adminlog` of match results. The points live in three tables: balances per
user, a history of point changes, and a log of match results.

The model has five modules:

- `Text` (`text.dfy`): the Python built-ins the bot relies on. These are
  `str(n)`, `int(s)`, `str.strip()`, `str.split()` and left-aligned padding.
  It proves that `int(str(n)) == n` and that splitting single-space-joined
  words gives the words back.
- `Seqs` (`seqs.dfy`): filtering a sequence (the table deletes) and a stable
  sort on an integer key (Python's `sorted`, `list.sort` and the store's
  `order`). It proves the sort is ordered, is a permutation, and keeps equal
  keys in input order. Where the store leaves the order of ties unstated,
  the model keeps table order (see "Left out").
- `Database` (`database.dfy`, for database.py): the three tables as a datatype `Tables`. Each
  operation is a pure transition function on `Tables`. Class `Ledger` holds
  the tables as fields, and its methods perform the operations in place.
  The central invariant `Consistent` says that each user has at most one
  balance row, history ids increase, every history user has a row, and every
  balance equals the sum of that user's surviving history deltas. Every
  operation, and so every sequence of operations, keeps it.
- `Utils` (`utils.dfy`, for utils.py): mention detection, `validate_input`, the leaderboard
  text, and class `Throttle`. `Throttle` holds the cooldown and rate-limit
  dictionaries, which its two methods update in place.
- `Dream11Bot` (`bot.dfy`, for dream11_bot.py): the message handler. A message comes in
  as a value, and `OnMessage` returns the reply it would send. It checks
  the rate limit first, then the command prefix, then the command's
  cooldown, and only then does the command run. The `!win` gate is the
  pure function `DecideWin`. The ledger call a command leads to is `CallOf`.
  `!tdy` is a loop over the schedule followed by a sort.

Time is an integer number of seconds (`now`). A date is an integer day
number (`today`). Store failures are a `StoreStatus` parameter: a failing
store leaves the tables unchanged and gives the `DatabaseError` message.

The model follows the code as written. Some consequences a reader may not
expect:

- `clear_points` deletes only rows whose username is not empty, and only
  match results whose match number is not 0. Blank-name rows and match-0
  results survive. An admin's `!win <@1> 0` passes validation, because a
  mention skips the range check, so that match-0 row does occur
  (`AdminMentionMatchZero`, `MatchZeroSurvivesClear`).
- Balances have no lower bound. `MAX_POINTS_PER_UPDATE` is never checked.
- Undoing the only award to a new user leaves a `(user, 0)` balance row
  (`AwardThenUndo`, `AddThenTake`). The leaderboard then still shows that
  user, with 0 points.
- Every award adds a match-result row, even when that match already has
  one. Undo deletes every row of the undone entry's match number.

## Model

| member | source | states |
|---|---|---|
| Text.ParseIntOfIntToString | dream11_bot.py:102-107 | `int` gives back every integer that `str` prints |
| Text.IntToStringInjective | utils.py:73 | different integers print differently |
| Text.Strip | dream11_bot.py:97 | the stripped text has no whitespace at either end and is empty only when the text is all whitespace |
| Text.StripIsSlice | dream11_bot.py:97 | the stripped text is the slice of the text between a run of leading and a run of trailing whitespace |
| Text.SplitJoinWords | dream11_bot.py:97 | `split()` of non-empty, space-free words joined by single spaces gives the words back |
| Text.PadRight | dream11_bot.py:237 | `f"{x:<w}"` is `x` followed by spaces up to width `w`, never truncated |
| Seqs.SortByCorrect | utils.py:58 | the stable sort is ordered, is a permutation, and keeps elements with equal keys in input order |
| Seqs.KeepAllBut | database.py:147 | deleting by a key that only one row has removes exactly that row |
| Seqs.KeepTwice | database.py:113-115 | deleting by the same condition twice deletes no more than once |
| Seqs.PermutationKeepsDistinctBy | dream11_bot.py:234 | sorting keeps match numbers distinct |
| Seqs.IncreasingSameElements | dream11_bot.py:234 | two strictly increasing lists with the same values are equal |
| Database.RowIndex | database.py:71 | the balance row found for a username holds that name, and no earlier row does; -1 exactly when no row does |
| Database.BalanceIsSum | database.py:64-161 | in consistent tables, each user's balance is the sum of that user's history deltas |
| Database.AwardEffect | database.py:71-95 | an award gives an unknown user a balance of `delta` and adds `delta` to a known user's balance. No other user's balance or row changes. Exactly one history row and one match-result row are appended, even when the match already has a result |
| Database.AwardKeepsConsistent | database.py:64-95 | an award keeps the tables consistent |
| Database.LatestIndex | database.py:133 | the undone entry has the greatest timestamp; ties go to the latest inserted |
| Database.UndoReply | database.py:135-155 | undo reports success exactly when there is history to undo |
| Database.UndoEffect | database.py:133-155 | undo on an empty history changes nothing and says "No points to undo". Otherwise it removes exactly the latest entry. No balance row appears or disappears, and every row keeps its user. It subtracts that entry's points only when the user has a balance row and leaves every other balance alone. It deletes every match result of the entry's match, and says "Undid {points} point(s) for {user}" |
| Database.AddThenTake | database.py:141-144 | adding then subtracting the same points restores the balances; for a user without a row, a 0 row remains |
| Database.UndoKeepsConsistent | database.py:126-155 | undo keeps the tables consistent |
| Database.ClearEffect | database.py:113-115 | a clear keeps exactly the balance and history rows with an empty username, and the match results of match 0 |
| Database.ClearEmpties | database.py:113-115 | when no row has a blank name or match 0, a clear empties all three tables |
| Database.ClearTwice | database.py:113-115 | clearing twice gives the same tables as clearing once |
| Database.ClearKeepsConsistent | database.py:106-124 | a clear keeps the tables consistent |
| Database.StepKeepsConsistent | database.py:64-161 | each operation keeps the tables consistent |
| Database.RunKeepsBalances | database.py:64-161 | after any sequence of awards, undos and clears, every balance equals the sum of that user's surviving history |
| Database.AwardThenUndo | database.py:64-161 | an award followed at once by an undo restores the history and every balance. It says "Undid {delta} point(s) for {user}". Match results lose every row of that match, so they are restored only if the match had no earlier result |
| Database.GetPoints | database.py:58-59 | one pair per balance row; a user appears, with their balance, exactly when the table has a row for them |
| Database.GetPointsBalances | database.py:55-62 | `get_points` has each user once, with a balance equal to that user's history sum, and includes every user that has history |
| Database.GetMatchResults | database.py:163-170 | match results come back in ascending match-number order, as a permutation of the table |
| Database.Ledger.UpdatePoints | database.py:64-104 | the tables become `Award(...)` of the old ones, or stay the same with "Failed to update points: …" when the store fails; consistency is kept |
| Database.Ledger.ClearPoints | database.py:106-124 | the tables become `Clear(...)` of the old ones, or stay the same with "Failed to clear points: …"; consistency is kept |
| Database.Ledger.UndoLastPoint | database.py:126-161 | the tables become `UndoTables(...)` and the reply is `UndoReply(...)` of the old ones, or they stay the same with "Failed to undo last point: …"; consistency is kept |
| Utils.MatchMention | utils.py:33 | a recognised mention yields a non-empty run of digits |
| Utils.MentionComplete | utils.py:33-35 | `<@digits>` and `<@!digits>` are recognised as a prefix, whatever follows, and yield their digits |
| Utils.MentionSound | utils.py:33-35 | whatever is recognised starts with a mention of the digits it yields |
| Utils.ExtractMentionId | utils.py:31-36 | for a leading mention, the digits that mention carries (the text starts with `<@digits>` or `<@!digits>`); otherwise the input unchanged |
| Utils.ExtractMentionIdOfMention | utils.py:31-36 | a mention of any digit string, leading zeros included, gives back exactly those digits, whatever follows it |
| Utils.ValidateInput | utils.py:38-51 | accepts exactly a leading mention (any match number), or a 1–32 character alphanumeric name with a match number in 1..74. It gives "" on success, the username error for a bad name, and the range error otherwise |
| Utils.MentionIsNotPlain | utils.py:41-46 | a mention is never also a valid plain username |
| Utils.RankedCorrect | utils.py:58 | the ranking runs from most to fewest points, holds the same entries, and keeps tied entries in insertion order |
| Utils.DisplayName | utils.py:62-66 | a mention is printed as is; anything else is printed after `@` |
| Utils.FormatPoints | utils.py:53-68 | "No points recorded yet!" exactly for no points; otherwise the trophy header followed by the ranked lines |
| Utils.NumberedConcat | utils.py:61-66 | rendering two runs of entries renders each, ranks continuing across |
| Utils.LineOfRank | utils.py:61-66 | the entry at ranking position `i` is printed as line `i + 1`, after the header and the lines before it |
| Utils.CooldownKeyInjective | utils.py:73 | different (user, command) pairs have different cooldown keys |
| Utils.CooldownStep | utils.py:75-80 | refuses exactly while `now` is before the key's expiry, leaving the map unchanged. Otherwise it sets that key's expiry to `now + cooldown` and leaves every other key alone |
| Utils.CooldownHolds | utils.py:70-80 | after an allowed command, the same user and command are refused exactly until `cooldown` seconds have passed |
| Utils.Refreshed | utils.py:85-90 | a user seen for the first time gets `(0, now)`. An entry whose window has ended restarts as `(0, now + 60)`; any other entry is kept. The resulting window never ends before `now` |
| Utils.RateStep | utils.py:82-97 | allows exactly when the refreshed count is below the limit, and then adds 1 to it. A refusal stores the refreshed entry with its count unchanged. Other users are untouched |
| Utils.RateStepBounded | utils.py:93-97 | no user's count ever exceeds the limit |
| Utils.AllowedWithinWindow | utils.py:82-97 | within one window, a user gets at most the limit of commands through, counting those already counted |
| Utils.Throttle.constructor | utils.py:16-17 | both dictionaries start empty |
| Utils.Throttle.GetCommandCooldown | utils.py:70-80 | the answer and the new cooldown map are `CooldownStep` of the old map; the counters are untouched |
| Utils.Throttle.CheckRateLimit | utils.py:82-97 | the answer and the new counters are `RateStep` of the old ones; the cooldowns are untouched; counts stay within the limit |
| Dream11Bot.CommandOf | dream11_bot.py:90-241 | the chosen command's prefix starts the message |
| Dream11Bot.PrefixesDisjoint | dream11_bot.py:90-241 | no message starts with two command prefixes |
| Dream11Bot.CommandOfComplete | dream11_bot.py:90-241 | a message starting with a command's prefix runs that command |
| Dream11Bot.WinArguments | dream11_bot.py:97 | the arguments are non-empty and contain no whitespace |
| Dream11Bot.DecideWin | dream11_bot.py:97-124 | accepts exactly when there are two arguments, the second parses as an integer, `validate_input` passes, and the author is an admin or the match is scheduled today. Each failing check gives its own message. An accepted command names the first argument and the parsed number |
| Dream11Bot.WinCommandRoundTrip | dream11_bot.py:97-124 | `!win <name> <n>`, as typed, is accepted exactly when the name and `n` pass validation and the author is an admin or match `n` is today. Otherwise it gives the matching rejection |
| Dream11Bot.AdminMentionMatchZero | dream11_bot.py:110-124 | an admin's `!win <@1> 0` is accepted, for match 0 |
| Dream11Bot.MatchZeroSurvivesClear | database.py:115 | a match-0 result survives `clear_points` |
| Dream11Bot.CallOf | dream11_bot.py:119-168 | an accepted `!win` awards exactly 1 point, made with the author's name; a rejected `!win` makes no call. An undo comes only from an admin's `!undo` and a clear only from an admin's `!clearpoints`; other commands make no call |
| Dream11Bot.AdminOnlyCalls | dream11_bot.py:147-166 | `!undo` and `!clearpoints` lead to their ledger call exactly when the author's id is in the admin list |
| Dream11Bot.NonAdminCalls | dream11_bot.py:119-166 | a non-admin changes the ledger only by a `!win` for a match scheduled today |
| Dream11Bot.PerformKeepsConsistent | database.py:64-161 | whatever command runs, every balance stays the sum of its user's history |
| Dream11Bot.AdminLogText | dream11_bot.py:183-193 | "No match results recorded yet!" exactly when there are no results |
| Dream11Bot.Acronym | dream11_bot.py:212-215 | a team is shown as the acronym of its stripped name, or as the stripped name when it has none |
| Dream11Bot.TodayListUnique | dream11_bot.py:208-234 | only one list is strictly ascending by match number and holds exactly today's fixtures |
| Dream11Bot.CollectStep | dream11_bot.py:209-222 | each loop turn keeps: gathered entries are today's, each once, and no fixture of today that was already visited is missing |
| Dream11Bot.SortedTodayList | dream11_bot.py:234 | the gathered entries, once sorted by match number, are the list of today's fixtures |
| Dream11Bot.TodayMatches | dream11_bot.py:208-234 | returns exactly today's fixtures, teams abbreviated, in ascending match-number order |
| Dream11Bot.TodayText | dream11_bot.py:224-237 | "No matches scheduled for today." exactly when there are none |
| Dream11Bot.ReplyOf | dream11_bot.py:90-318 | a non-admin's `!undo`, `!clearpoints` and `!adminlog` are refused as admin-only. A rejected `!win` gets its rejection text. A store failure during a ledger call gives the unexpected-error text. Only `!about` gives the help embed |
| Dream11Bot.WinCommand | dream11_bot.py:96-128 | the ledger changes exactly by `CallOf` for `!win`, and the reply is `ReplyOf` |
| Dream11Bot.UndoCommand | dream11_bot.py:146-155 | the ledger changes exactly by `CallOf` for `!undo`, and the reply is `ReplyOf` |
| Dream11Bot.ClearCommand | dream11_bot.py:163-169 | the ledger changes exactly by `CallOf` for `!clearpoints`, and the reply is `ReplyOf` |
| Dream11Bot.RunCommand | dream11_bot.py:89-318 | the ledger changes exactly by `CallOf`. The reply is `ReplyOf`, or for `!tdy` the text of today's fixture list |
| Dream11Bot.OnMessage | dream11_bot.py:80-318 | the bot's own messages change nothing. Every other message is counted against the rate limit first, and when refused nothing else changes. Only a command then consults its cooldown, and while cooling down the ledger is unchanged. Past both, the ledger changes exactly by `CallOf` and the reply is `ReplyOf` |

## Left out

- The Supabase client and the begin/commit/rollback calls are left out. Each operation is one atomic transition, and a failing store is the `Unavailable` status. The early return at database.py:136, which never commits, is a remote-transaction detail and is not modelled.
- `init_db` (schema probes), `load_schedule` (CSV parsing), `datetime.now` and `strptime` are I/O and clock. The schedule is a map from match number to `Fixture`, with an integer day number. `today` and `now` are parameters.
- Timestamps are integer seconds instead of ISO-8601 strings. `!adminlog` prints the integer.
- The Discord client, message sending and logging are left out. The `!about` embed's contents are presentation only: the model replies with the marker `HelpEmbed`.
- `ADMIN_USER_IDS` is a parameter, and `MAX_MATCH_NUMBER` is its default of 74. `COMMAND_COOLDOWN` and `MAX_COMMANDS_PER_MINUTE` are not defined in config.py, so they are the constant fields of `Throttle`. `LOG_LEVEL` only configures logging. test.py is not part of this model.
- Concurrency is left out: handlers run one after another, as the code has no locking.
- Regular expressions and `isalnum` are hand-coded. `\d` and `isalnum` are restricted to ASCII, and so are the digits `int` accepts.
- Dictionary iteration order over the schedule is not modelled: the loop visits match numbers in any order. After the sort the result is the same (`TodayListUnique`).
- Database.Ledger.UpdatePoints: the points table is a sequence, and an award updates the first row with the username. The store updates every row with that name. Under `Consistent` there is at most one such row, so the two agree.
- Database.GetPoints: the store returns the points rows in no stated order (database.py:58). The model returns them in table order, with an update kept in place, so the leaderboard's order among tied users is table order.
- Database.GetMatchResults: the store orders by match number only (database.py:166), and a match can have several rows. The model keeps table order among rows of the same match, so the `!adminlog` text is fixed where the store's is not.
- Database.LatestIndex: the store leaves the order of equal timestamps unspecified; the model picks the latest inserted.
- Utils.Throttle.CheckRateLimit: the `defaultdict` factory reads the clock when the entry is created. The model takes that reading to be `now`.
- Utils.IsAdmin: takes the author's id instead of the author object.
- Utils.ExtractMentionId: the handler imports it but never calls it, so it is modelled on its own.
- Dream11Bot.RunCommand: the `!tdy` reply is stated as the text of some list satisfying `TodayList`, not as a function of the inputs. `TodayListUnique` shows that there is only one such list.
