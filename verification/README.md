# secretBot follow graph, modelled in Dafny

secretBot is a Telegram bot. It keeps one DynamoDB table, `users`, keyed by a
handle. Each row lists the handles the user `follow`s and the handles that
follow the user (`followers`), plus derived counters:

- `follow_count`;
- `real_follow_count`: the followed handles that have a row;
- `followers_count`;
- profile fields.

Users follow and unfollow each other with `/add` and `/remove`, register with
`/start`, and broadcast to their followers with `/send`.

The model keeps the table as an immutable `map<string, Account>`
(`Store.Table`). Every operation is a pure function from table to table. The
source's two scans become set comprehensions:

- `Store.FollowersOf`: rows whose `follow` contains a handle;
- `Store.Registered`: keys in a set.

Anything the source raises becomes an `Err` of `Store.Result`:

- a row read through `['Item']` or `item[...]` that does not exist;
- a missing attribute: a counter incremented with `SET a = a + :v` on a row
  without it, or a row without `user_id` when `/send` converts it with `int(...)`;
- `list.remove` of an absent element;
- an empty photo list.

The source has two variants of the same operations, and they are modelled
separately over the same table:

- `Handler` (handler.py): the command handlers. They are set-based and
  tolerant: a missing target row or a `ValueError` is skipped.
- `DbActions` (db_actions.py): per-handle helpers. They are strict: every row
  read through `['Item']` or `item[...]` must exist, and every `list.remove`
  must find its element. Elsewhere they are as tolerant as the handlers:
  - `get_followers_list` silently skips followed handles without a row;
  - `create_user` needs no existing row;
  - `update_user_photo` needs none in the source either; see "Left out".

The consistency of the follow graph is `Store.Consistent`. It has four parts:

- `follow` and `followers` mirror each other;
- follower entries name registered handles;
- nobody follows themself;
- neither list holds duplicates.

The counters are exact when `Store.FollowCountsExact` and
`Store.RealCountsExact` hold. `HandlerProps` and `DbProps` prove which
operations keep these invariants, which break them, and how the operations
relate to each other.

Modules:

- `Seqs`: `list.remove` (`RemoveFirst`) and list facts.
- `SetOrder`: a fixed enumeration `ListOf` standing for Python's `list(set)`.
- `Parse`: the `/add` and `/remove` argument parse.
- `Store`: the data model, the scans, the invariants, and the follow-step
  abstraction shared by both variants.
- `Handler` and `HandlerProps`: the handler.py variant and its properties.
- `DbActions` and `DbProps`: the db_actions.py variant and its properties.

Python's `list(set)` has no specified order. `ListOf` picks ascending
code-point order. Almost every contract promises only "duplicate-free, with
exactly these elements". The exception is `Handler.RemoveCommand`: it states
that the actor's new `follow` is `ListOf` of the difference. That lets
`HandlerProps.RemoveIdempotent` state exact table equality. In Python the two
runs agree only up to the order of that list (see "Left out").

## Model

| member | source | states |
|---|---|---|
| Parse.CommandArgsOfJoin | handler.py:139-140 | for a command followed by a space and space-joined whitespace-free tokens, the argument list is those tokens in order, each with one leading `@` removed |
| Parse.MentionsRoundTrip | handler.py:139-140 | typing handles as `@` mentions after the command, e.g. `/add @alice @bob`, gives back exactly those handles |
| Parse.CommandArgsEmptyIffBlank | handler.py:139-143 | the argument list is empty exactly when only whitespace follows the command, which is when the empty-command reply is sent |
| Parse.WordsJoin | handler.py:140 | `str.split()` inverts joining whitespace-free words with single spaces |
| Parse.StripAt | handler.py:139 | a token starting with `@` loses exactly that character; any other token is unchanged |
| Parse.Tail | handler.py:203 | the slice `text[k:]` is the suffix after the first `k` characters, or empty when the text is shorter |
| SetOrder.ListOf | handler.py:155 | `list(new_follow)` holds each element of the set exactly once |
| Seqs.RemoveFirstMultiset | db_actions.py:10 | `list.remove` takes exactly one occurrence of the element out of the list |
| Seqs.RemoveFirstSplices | db_actions.py:52 | `list.remove` deletes the first occurrence and keeps the rest in order |
| Seqs.RemoveFirstNoDup | db_actions.py:52 | on a duplicate-free list, `list.remove` keeps it duplicate-free and removes exactly that handle from its element set |
| Seqs.RemoveFirstAppended | db_actions.py:10 | removing a handle that was just appended to a list that lacked it gives back the original list |
| Store.RegisteredCount | handler.py:33 | for a duplicate-free `follow`, the `is_in` scan count equals the number of positions naming a registered handle |
| Store.FollowersScanMatchesList | handler.py:117-126 | on a consistent table, the scan for rows following `h` returns exactly the handles on `h`'s stored `followers` list |
| Store.MirrorStep | handler.py:62-85 | changing one actor's `follow` and the matching targets' `followers` together keeps the two lists mirrored |
| Handler.UpdateUserRealFollowCount | handler.py:26-42 | succeeds exactly when the actor has a row; changes only the actor's `real_follow_count`, setting it to the number of registered handles in the given set, or in the row's own `follow` when the set is empty |
| Handler.RealFollowCountIsPositional | handler.py:31-33 | with no explicit set, the recount equals the number of entries in a duplicate-free `follow` that name a registered row |
| Handler.IncreaseUsersRealFollowCount | handler.py:46-59 | every row whose `follow` contains the handle gains exactly one `real_follow_count`, and no other row changes; the call raises exactly when such a row lacks the counter |
| Handler.IncreaseUsersRealFollowCountLoop | handler.py:51-59 | one update per scanned row, in whatever order the scan returns them, reaches the same table as the set-level definition |
| Handler.EditFollowers | handler.py:71-74 | only `followers` changes: appending adds the actor at the end; removing drops one occurrence, and a row without the actor (`ValueError`) is left alone |
| Handler.UpdateUsersFollowers | handler.py:62-85 | only rows of handles in the set are edited, and only in their `followers`; handles without a row are skipped |
| Handler.UpdateUsersFollowersLoop | handler.py:68-85 | the per-handle loop ends in the set-level result whatever the iteration order |
| Handler.RegisterMeetsSpec | handler.py:117-130 | a new handle gets `follow = []`, `real_follow_count = 0`, `followers` exactly the rows following it, and `followers_count` their number; each such row gains one `real_follow_count`; the call fails exactly when such a row lacks the counter |
| Handler.StartCommand | handler.py:106-130 | an existing handle leaves the table unchanged; a new handle is registered as above |
| Handler.AddCommand | handler.py:134-160 | no arguments gives the empty-command reply and no write; a missing actor row raises; otherwise `follow` grows by a duplicate-free list of exactly `args − follow − {actor}`, each such target with a row gains the actor in `followers`, the actor's `real_follow_count` is recounted, and nothing else changes |
| Handler.RemoveCommand | handler.py:167-193 | no arguments gives the empty-command reply and no write; a missing actor row raises; otherwise `follow` becomes a duplicate-free list of exactly `follow − args`, each target row loses one occurrence of the actor from `followers` (rows without it are untouched), and `real_follow_count` is recounted |
| Handler.SendCommand | handler.py:198-208 | one message per row whose `follow` contains the sender, sent to that row's `user_id` with the text after `/send` quoted; it raises exactly when such a row has no `user_id` |
| Handler.SendAudienceIsFollowersList | handler.py:206 | on a consistent table, the send audience is exactly the sender's stored `followers` |
| HandlerProps.AddEmptyIffBlank | handler.py:139-145 | `/add` gives the empty-command reply and leaves the table unchanged exactly when only whitespace follows `/add` in the message |
| HandlerProps.RemoveEmptyIffBlank | handler.py:172-178 | `/remove` gives the empty-command reply and leaves the table unchanged exactly when only whitespace follows `/remove` in the message |
| HandlerProps.AddFollowList | handler.py:147-158 | after `/add`, the actor's follow set is the old set plus every argument except the actor; the actor is followed only if it already was; a duplicate-free `follow` stays duplicate-free |
| HandlerProps.AddMirrorsTargets | handler.py:147-159 | a registered, newly followed target ends up in the actor's `follow`, and the actor ends up in the target's `followers` |
| HandlerProps.AddSpecFollowSet | handler.py:148-158 | the actor's new follow set is the old set plus `args − follow − {actor}` |
| HandlerProps.AddPreservesConsistency | handler.py:134-160 | `/add` keeps a consistent table consistent |
| HandlerProps.AddPreservesRealCounts | handler.py:160 | `/add` keeps every `real_follow_count` equal to its scan count |
| HandlerProps.AddNothingNewIsNoOp | handler.py:148-160 | when every argument is already followed or is the actor, `/add` leaves a table with an exact count unchanged |
| HandlerProps.UnfollowedFacts | handler.py:71-74 | the target-side removal keeps `follow` and keeps a duplicate-free `followers` duplicate-free; the actor is still listed afterwards exactly when it occurred more than once |
| HandlerProps.RemoveUnlinksTargets | handler.py:180-192 | after `/remove`, no argument remains in the actor's `follow`, and the actor is gone from the `followers` of every target row that listed it at most once |
| HandlerProps.RemovePreservesConsistency | handler.py:167-193 | `/remove` keeps a consistent table consistent |
| HandlerProps.RemovePreservesRealCounts | handler.py:193 | `/remove` keeps every `real_follow_count` equal to its scan count |
| HandlerProps.RemoveIdempotent | handler.py:181-193 | when no row lists the actor twice in `followers`, applying the same `/remove` twice gives the same table as applying it once |
| HandlerProps.RegisterPreservesConsistency | handler.py:112-130 | `/start` keeps a consistent table consistent |
| HandlerProps.RegisterPreservesRealCounts | handler.py:46-59 | the +1 bump on the rows that already follow the new handle is exactly the change in their scan counts, so exact counts stay exact |
| DbActions.UpdateUsersFollowers | db_actions.py:3-19 | raises on a missing target row, and on removing an absent follower; otherwise only the target's `followers` changes, by one appended or one removed occurrence |
| DbActions.FollowUser | db_actions.py:22-39 | following oneself or a handle already followed returns false and writes nothing; a row without `follow_count` raises; a missing target raises; otherwise the target is appended once to `follow`, `follow_count` rises by one, and the actor is appended to the target's `followers` |
| DbActions.GetFollowersList | db_actions.py:43-47 | returns exactly the existing rows whose key is in the handle's `follow`, and raises when the handle has no row |
| DbActions.UnfollowUser | db_actions.py:50-62 | succeeds exactly when the target is in the actor's `follow` and the actor is in the target's `followers`; removes one occurrence from each, and changes nothing else, `follow_count` included |
| DbActions.CreateUser | db_actions.py:65-80 | puts a row with `follow = []`, `follow_count = 0`, `photo_id = 0`, `followers` exactly the rows following the handle, and `last_name` only when one is given; an existing row is overwritten and every other row is kept |
| DbActions.UpdateUser | db_actions.py:83-95 | raises on a missing row; otherwise keeps `follow`, sets `follow_count` to its length, recomputes `followers` from the scan, keeps an existing `photo_id` or defaults it to 0, and replaces `last_name` only when a new one is given |
| DbActions.UpdateUserPhoto | db_actions.py:98-107 | raises on an empty photo list or a missing row; otherwise only the handle's `photo_id` changes, to the last photo's `file_id` |
| DbProps.FollowUserPreservesInvariants | db_actions.py:22-39 | `follow_user` keeps a consistent table consistent, and exact `follow_count`s exact |
| DbProps.FollowUserLeavesRealCountStale | db_actions.py:38-40 | a new follow of a registered handle by a row with `follow_count` succeeds, and since `follow_user` never recounts, the actor's `real_follow_count` ends one below the scan count |
| DbProps.StartedRowCannotFollow | db_actions.py:31 | a row created by `/start` has no `follow_count`, so `follow_user` on it raises as soon as there is something new to follow |
| DbProps.UnfollowUserInvariants | db_actions.py:50-62 | `unfollow_user` keeps a consistent table consistent, but leaves the actor's `follow_count` one above the length of `follow` |
| DbProps.FollowThenUnfollow | db_actions.py:22-62 | on a consistent table, a new follow of a registered handle succeeds, and unfollowing right after it restores every list; only the actor's `follow_count` keeps the increment |
| DbProps.GetFollowersListMatchesRecount | db_actions.py:43-47 | the number of rows the scan returns equals the handler's `real_follow_count` recount, and equals the stored count when counts are exact |
| DbProps.CreateUserPreservesInvariants | db_actions.py:65-80 | creating a row for a new handle keeps the graph consistent and the `follow_count`s exact |
| DbProps.UpdateUserPreservesInvariants | db_actions.py:83-95 | afterwards the handle's `followers` mirror every other row's `follow`; the graph and both counters stay as exact as they were |
| DbProps.UpdateUserIdempotent | db_actions.py:83-95 | a second `update_user` with the same profile changes nothing |
| DbProps.UpdateUserPhotoPreservesInvariants | db_actions.py:98-107 | storing a photo keeps the graph consistent and both counters exact |

## Left out

- Telegram wiring is not modelled: the bot, `send_message`, the dispatcher and its lookup through `consts`, and the `message_handler`/`contact_handler` stubs. They are network I/O or logging. `Handler.SendCommand` returns the messages it would send instead of sending them.
- boto3 setup, logging and DynamoDB's own behaviour are not modelled: pagination, the size limits of `is_in`, and expression parsing. A scan is a set comprehension over the whole table.
- Handle choice is not modelled. The source uses `username or id` in some places and bare `username` in others, e.g. the `/start` scan. Each operation takes one `handle` instead. The case of a chat without a username, where the scan looks for `None`, is not modelled.
- Partial writes are not carried. An `Err` result drops the writes made before the raise. `DbActions.FollowUser` with a missing target has already written the actor's `follow` and `follow_count` when it raises; the model only reports `MissingRow`.
- Concurrency is not modelled. Read-modify-write races between handlers cannot occur in a model of sequential pure functions.
- `.upper()` on names is not modelled: `DbActions.CreateUser` and `DbActions.UpdateUser` store the names as given. Unicode case mapping has no counterpart in Dafny.
- `DbActions.UpdateUserPhoto` does not model DynamoDB's upsert. On a missing key it returns `MissingRow` instead of creating a partial row, because an `Account` always has both handle lists.
- `Handler.UpdateUserRealFollowCount` does not model the upsert either; it also returns `MissingRow` on a missing key.
- The "more than 10 real_following" filter of `send_command_handler` is not modelled, because the code does not implement it.
- List order: Python's `list(set)` and the scan order are fixed by `ListOf`. `HandlerProps.RemoveIdempotent` therefore holds as exact table equality. In Python the second `/remove` may write the same handles in another order.
- `HandlerProps.RemoveIdempotent` requires every row to list the actor at most once in `followers`. A row listing the actor twice loses one copy per `/remove`, so the table changes again on a repeat.
- `/add` appends the actor to a target's `followers` without first checking whether it is already there; the model follows the code. A de-duplication there would be stricter than the source.
- `/add` always does the `list_append` write and the recount, even when nothing new is followed. `HandlerProps.AddNothingNewIsNoOp` shows the table is unchanged only when the actor's `real_follow_count` was already exact.
