# InstagramBot account database — a Dafny model

This project models how the bot keeps one owner's SQLite database in step with the
owner's Instagram relationships. There is one database file per owner, and it holds
four tables (`general`, `accounts`, `history` and `actions`). The model keeps
`accounts`, `history` and `actions`:

- `accounts` has one row per known username. Each row carries a `follows_me` flag, an
  `i_follow` flag, the time of an outstanding follow request and a `blacklisted` flag.
- `history` gets one row per reconciliation. The row holds the two list lengths and four
  comma-joined deltas: new followers, lost followers, new following and un-following.
- `actions` is an append-only audit trail of what the bot did.

The modelled operations are these:

- `updateFollowersAndFollowing(followers, following)`. It splits the names into four
  groups (mutual, only-I-follow, only-they-follow, neither), then upserts them group by
  group. It computes the four deltas against the flags stored before the call, with
  blank "new" deltas on the first run. Then it appends one history row.
- The two other, earlier copies of that function are modelled too: `backend/database.js`
  and, earliest of all, `test.js`. The `test.js` copy reads both lists from text files with
  `split(',')`.
- `getRandomMutual` picks `mutuals[Math.floor(Math.random() * mutuals.length)]`.
- `updateExpired(DAYS_LIMIT)` is the expiry sweep. Every request older than
  `DAYS_LIMIT` days is withdrawn. The account is blacklisted unless it follows the owner,
  and the blacklisted names are returned. The repository's body of this function is an
  unfinished stub. Its loop's `return` only leaves the callback, so nothing is written.
  On a successful query the promise never settles; a failed query rejects it. The model
  follows the behaviour that the repository's test and the design comment in
  `backend/main.js` prescribe.
- `addAction` appends one row to the ledger.
- The database file name is the username with every character outside `[a-zA-Z0-9]`
  replaced by `_`.

How the model represents these:

- Tables are sequences in `SELECT` (row id) order. `Accounts.Table` keeps the `UNIQUE`
  constraint on `username`.
- Each call is one all-or-nothing transition on `AccountDatabase.State`.
- `AccountDatabase.Step` is one of the calls of the bot's main loop. `AccountDatabase.Run`
  composes any sequence of them, in any order.
- The clock, `Math.random()` and the file contents are parameters: `time`, `now`,
  `roll` and the text of each file.

Modules:

- `Seqs`: generic sequence facts.
- `Accounts`: the row, upsert and selection.
- `Reconcile`: groups, upserts and deltas.
- `CommaList`: `join(",")` and `split(",")`.
- `Ledger`: history and action rows.
- `Sweep`: expiry.
- `Sanitize`: the file name.
- `AccountDatabase`: the whole file.
- `Scenarios`: the repository's test runs, stated as lemmas.

## Model

| member | source | states |
|---|---|---|
| Accounts.Upsert | backend/AccountDatabase.js:167-174 | A new name gets a fresh row at the end, with default columns and the given flags. An existing name keeps its place and every column except the two flags. The usernames stay unique and in order. |
| Accounts.UpsertAll | backend/AccountDatabase.js:178-196 | A run of upserts keeps every old row in place, changing at most its flags. It leaves untouched names exactly as they were. It adds fresh rows only. Afterwards the stored names are exactly the old names plus the touched names. |
| Accounts.UpsertAllFlags | backend/AccountDatabase.js:178-196 | Suppose each upsert sets the flags that list membership dictates. Then every touched row ends with those flags, even when a name is upserted several times. |
| Accounts.UpsertAllSettles | backend/AccountDatabase.js:193-196 | When the run touches every stored name, which is what the neither-group guarantees, every row of the table ends with membership flags. |
| Accounts.NamesWhere | backend/AccountDatabase.js:143-145 | A selection by flag contains exactly the usernames of the rows whose flags show the relation. It is duplicate-free when the table is. |
| Accounts.NamesWhereFlags | backend/AccountDatabase.js:154-156 | Selecting by `follows_me` or `i_follow` yields exactly the table's followers or followed accounts. |
| Accounts.Mutuals | backend/AccountDatabase.js:238-240 | The mutuals are exactly the usernames whose rows have both flags set, with no repeats, in row order. |
| Accounts.NamesWhereInRowOrder | backend/AccountDatabase.js:144 | A `rows.filter(…).map(row => row.username)` selection lists its names in row order. |
| Accounts.GetRandomMutual | backend/AccountDatabase.js:233-253 | For any roll in [0, 1), a name comes back iff some row has both flags set. The name returned is such a row's username. |
| Accounts.ScaledFloorInRange | backend/AccountDatabase.js:241 | `Math.floor(roll * n)` is a valid index whenever the array is non-empty. |
| Accounts.RollFor | backend/AccountDatabase.js:241 | Every index of an array of length n is produced by some roll in [0, 1). |
| Accounts.EveryMutualReachable | backend/AccountDatabase.js:238-241 | Every mutual is picked by some roll, so the choice is not biased away from any mutual. |
| Reconcile.Classify | backend/AccountDatabase.js:135-140 | Each group holds exactly the names of its membership class. The neither-group is drawn from the stored names. |
| Reconcile.GroupsKeepDuplicates | backend/AccountDatabase.js:135-140 | The list-filter groups keep each listed name as often as the list repeats it. The neither-group repeats no name. |
| Reconcile.ClassificationPartition | backend/AccountDatabase.js:111-115 | Every listed or stored name lies in exactly one of the four groups. |
| Reconcile.UpdatesAgree | backend/AccountDatabase.js:178-196 | Every upsert in the run sets `follows_me` to list-of-followers membership and `i_follow` to list-of-following membership. |
| Reconcile.UpdatesNames | backend/AccountDatabase.js:178-196 | The upserts run the groups in source order: mutual, only-I-follow, only-they-follow, neither. |
| Reconcile.UpdatesCover | backend/AccountDatabase.js:132-140 | The upserts touch exactly the listed names and the stored names. |
| Reconcile.ApplyGroups | backend/database.js:155-190 | After the accounts transaction, the table holds exactly the stored and listed names. Every row's flags are list membership. Old rows keep place and columns apart from the flags. New rows are fresh. |
| Reconcile.RowCount | backend/AccountDatabase.js:167-170 | There is one row per distinct name, however often a name is listed. |
| Reconcile.ComputeDeltas | backend/AccountDatabase.js:143-163 | New followers are listed names the table did not flag as followers, and none on a first run. Lost followers are flagged followers missing from the list. The same holds for following. An empty table gives four empty deltas. |
| Reconcile.DeltaMultiplicities | test.js:244-263 | The new-follower and new-following deltas keep the list's duplicates. Lost followers and un-following never repeat a name. |
| Reconcile.NewDeltasSubsequence | backend/database.js:140-152 | The new deltas keep the order of the lists they filter. |
| Reconcile.LostDeltasInRowOrder | backend/AccountDatabase.js:150-163 | Lost followers and un-following list stored names in row order, which fixes the order of names in their history text. |
| Reconcile.DeltasDisjoint | backend/AccountDatabase.js:143-163 | No name is both a new and a lost follower, nor both newly followed and un-followed. |
| Reconcile.SettledTableIsStable | backend/AccountDatabase.js:178-196 | Take a table that already stores every listed name with membership flags. An append-only transition that keeps those flags leaves it unchanged. |
| Reconcile.SettledTableHasNoDeltas | backend/AccountDatabase.js:143-163 | Deltas against a table that already matches the lists are all empty. |
| Reconcile.ReconcileIdempotent | backend/AccountDatabase.js:103-228 | Reconciling twice with the same lists: the second call changes no row and records four empty deltas. |
| CommaList.Join | backend/AccountDatabase.js:205-208 | A joined delta is blank exactly when the list is empty or is the single blank name. |
| CommaList.Split | test.js:202 | `split(',')` yields at least one piece, and no piece holds a comma. |
| CommaList.SplitCount | test.js:201-206 | A split has one more piece than the text has commas. |
| CommaList.SplitJoin | test.js:202 | Joining the pieces of a split gives the text back. |
| CommaList.JoinSplit | backend/AccountDatabase.js:205 | Splitting a joined non-empty list of comma-free names gives the list back. |
| CommaList.EmptyTextSplitsToBlankName | test.js:201-206 | The empty text splits into one blank name, so an empty list does not survive a join and a split. |
| CommaList.ParseList | test.js:201-206 | The corrected reader: the empty text is read as the empty list, and no name holds a comma. |
| CommaList.ParseJoinRoundTrip | backend/AccountDatabase.js:205-208 | Every list of non-blank, comma-free names survives a join followed by a parse. This includes the empty list. |
| Ledger.AddAction | backend/AccountDatabase.js:280-297 | Exactly one row is appended, carrying the given account, type and time. Earlier rows are kept. |
| Ledger.AddActionNoDedup | backend/database.js:228-242 | The ledger does not deduplicate. Each identical call adds one more copy of the row. |
| Sweep.RejectedNames | backend/AccountDatabase.test.js:126-129 | The returned names are exactly the usernames of expired rows that do not follow the owner. |
| Sweep.RejectedNamesDistinct | backend/AccountDatabase.test.js:126-129 | The returned list repeats no name. |
| Sweep.UpdateExpired | backend/AccountDatabase.js:258-262 | Rows without a request older than `DAYS_LIMIT` days are unchanged. Expired requests are cleared, and such a row is blacklisted iff it was blacklisted already or does not follow the owner. No other column changes. Usernames and their order are kept. The result lists exactly the expired non-followers, once each, in row order. |
| Sweep.RejectedNamesInRowOrder | backend/AccountDatabase.js:258-261 | The sweep's names come in the order of the rows it visits. |
| Sweep.SweepLeavesNothingExpired | backend/main.js:34-35 | Right after a sweep, no request is expired at the same instant. |
| Sweep.SweepOfSettledTable | backend/AccountDatabase.js:262 | A sweep that finds no expired request changes nothing and returns no name. |
| Sweep.SweepIdempotent | backend/main.js:34-36 | A second sweep at the same instant changes nothing and blacklists nobody. |
| Sanitize.SanitizeName | backend/AccountDatabase.js:59 | The file name has the username's length and only `[A-Za-z0-9_]` characters. It keeps the alphanumerics where they are and puts `_` everywhere else. |
| Sanitize.SanitizedIsFixedPoint | backend/database.js:54 | A name is left as it is exactly when it already uses only `[A-Za-z0-9_]`. |
| Sanitize.SanitizeIdempotent | test.js:120 | Sanitising twice is sanitising once. |
| Sanitize.SameFileIff | test.js:112-113 | Two usernames share a database file iff they have the same length and agree wherever either has an alphanumeric character. |
| Sanitize.SeparatorsCollide | test.js:112-113 | A dot and an underscore at the same place lead to the same file. |
| Sanitize.MattTangCollision | test.js:112-113 | "matt.tang" and "matt_tang" are different names with the same file name, `matt_tang`. |
| AccountDatabase.UpdateFollowersAndFollowing | backend/AccountDatabase.js:103-228 | The table ends holding exactly the stored and listed names, flagged by list membership. Old rows keep place and other columns, and new rows are fresh. One history row is appended with the time and the raw list lengths. All its deltas are blank when the table was empty. The actions are untouched. |
| AccountDatabase.StoredFlagsMatchLists | backend/database.js:168-186 | After the call, the stored followers are exactly the listed followers. The stored followed accounts are exactly the listed following. |
| AccountDatabase.HistoryRecordsDeltas | backend/AccountDatabase.js:200-222 | For names that are not blank and hold no comma, each history delta parses back to exactly the set the delta definition describes. |
| AccountDatabase.UpdateFromFilesAsWritten | test.js:198-206 | The earliest revision counts one more follower (following) than the file has commas. |
| AccountDatabase.EmptyFilesCreateBlankMutual | test.js:201-206 | Two empty files on a fresh database store one blank username flagged as a mutual, and count one follower and one following. |
| AccountDatabase.UpdateFromFiles | test.js:201-206 | With the empty text read as no names, empty files count zero and add no account. The stored names are the old ones plus the parsed names. |
| AccountDatabase.Step | backend/main.js:32-36 | No call deletes or reorders an account, or rewrites a history or action row. |
| AccountDatabase.RunAppendOnly | backend/main.js:32-41 | Over any sequence of calls, the usernames, the history and the actions only grow at the end. |
| Scenarios.FirstSyncAccounts | backend/AccountDatabase.test.js:53-63 | Followers [user1, user2] and following [user2, user3] give three rows with the flags the test expects. |
| Scenarios.FirstSyncHistory | backend/AccountDatabase.test.js:65-67 | The first run records one history row counting 2 and 2, with every delta blank. |
| Scenarios.SecondSyncAccounts | backend/AccountDatabase.test.js:70-82 | The second run gives five rows with the flags the test expects, user3 still stored and now flagged neither way. |
| Scenarios.SecondSyncHistory | backend/AccountDatabase.test.js:84-86 | The second history row records new follower user4, lost follower user2 and new following user5. It also records un-following user3. |
| Scenarios.EmptyListsScenario | backend/AccountDatabase.test.js:204-208 | Empty lists on an empty database store no account. |
| Scenarios.DuplicatesScenario | backend/AccountDatabase.test.js:210-217 | Lists repeating user1 and user2 store two rows. The history counts both lists at length 2. |
| Scenarios.RandomMutualScenario | backend/AccountDatabase.test.js:93-100 | With user4 the only name in both lists, every roll picks user4. |
| Scenarios.NoMutualScenario | backend/AccountDatabase.test.js:102-108 | With no name in both lists, no roll picks anyone. |
| Scenarios.AddActionScenario | backend/AccountDatabase.test.js:142-153 | One action on an empty ledger gives one row of type "follow" for user1. |
| Scenarios.ExpiryScenario | backend/AccountDatabase.test.js:112-139 | After the test's setup, user3 is blacklisted and returned. user4 is neither blacklisted nor returned. Both keep their rows and lose their request. |

## Left out

- SQLite mechanics are not modelled: opening the file, creating the directory and the
  tables, prepared statements, `BEGIN`/`COMMIT` and the callback and promise plumbing.
  Each call is one atomic transition.
  - Storage errors are left out. So is the `db.all` error branch, which logs and returns
    without settling.
  - So is the fact that `db.serialize` ignores its second argument, which means the
    promise of `updateFollowersAndFollowing` never resolves.
  - The history insert runs after `COMMIT`. The model applies both writes together.
- `getTable`, `setProfileStatuses` and `getMutuals` are called but not defined in the
  repository's files (backend/AccountDatabase.test.js:57 and :160, backend/Automation.js:155
  and :206). Their behaviour is unknown, so they are not modelled.
- The `general` table is created but not modelled, because no modelled call reads or
  writes it.
- Accounts.GetRandomMutual: `None` stands for the `undefined` the code resolves when
  there is no mutual. The repository's test expects `null` there. The error path
  (`row` undefined) is left out with the other storage errors.
- Accounts.GetRandomMutual: `roll` is an exact real in [0, 1), while `Math.random()`
  returns a double. For any realistic number of mutuals, the floor of the product picks
  the same index.
- Sweep.UpdateExpired: `now` and the request times are whole milliseconds, and
  `DAYS_LIMIT` is a whole number of days.
  - Request times that `Date.parse` cannot read (NaN, never expired) are left out.
  - Floating point is left out.
  - The code's stub body, which changes nothing, is not modelled. The contract comes
    from the repository's test and design comment.
- Sanitize.SanitizeName works on characters. The regular expression works on UTF-16
  code units, so a character outside the Basic Multilingual Plane becomes two
  underscores in JavaScript and one here.
- The test for `addAction` queries an `account_username` column that the `actions`
  table does not have. The model keeps the schema's `account_id` and stores whatever is
  passed, as SQLite's type affinity lets it.
- Columns the core never reads or writes (`last_updated`, the counts, `following_status`,
  `user_interacted`) are carried as fields but never given meaning.
- Reading `followers.txt` and `following.txt` is left out. The file contents are
  parameters, and a trailing newline is part of the last name.
- The clock (`new Date().toISOString()`, `Date.now()`) and `Math.random()` are
  parameters.

## Findings

| source | as written | input that shows it | evidently intended | confidence | as-written member | corrected member |
|---|---|---|---|---|---|---|
| test.js:201-206 | Each list file is read with `text.split(',')`, and `"".split(',')` is `[""]`. | Empty `followers.txt` and `following.txt` on a fresh database. One account with the blank username is stored, flagged as a mutual, and the history counts one follower and one following. | An empty file means an empty list: no account is added and both counts are zero. | not executed | AccountDatabase.EmptyFilesCreateBlankMutual | AccountDatabase.UpdateFromFiles |
