# Room resolver of the campus chat layer, in Dafny

The campus issue-reporting application lets users, staff and admins talk in
two-party chat rooms. Whenever someone opens a conversation (optionally "about"
a report or a lost-and-found item), `openChatWithUser(currentUserId,
targetUserId, reportId?)` in `lib/openChat.ts` finds the one room of the pair
in the `chat_rooms` table or creates it:

1. it queries for a room whose `(user1, user2)` is the pair in either order,
   with `maybeSingle` (no row, one row, or an error for two or more);
2. on a hit with a (truthy) report id it merges `report_id` and
   `report_context_sent: false` into that room's metadata, without checking
   whether the update worked, and returns the room's id;
3. on a miss it inserts `(user1 = current, user2 = target)` with the link
   metadata, or `{}` without a report id, and returns the new id;
4. any error thrown along the way becomes a `null` result.

`open_chat.dfy` (module `OpenChat`) models this. The table is the `rows: seq<Room>`
field of the class `RoomTable`, whose `Valid()` is the primary-key constraint
on `id`. `RoomTable.OpenChatWithUser` performs the steps on that field, and
its postcondition ties the new table and the result to the pure function
`Resolve`, about which the properties are proved as lemmas. What the hosted
database decides by itself is a `Gateway` parameter: whether the lookup
reports an error, whether the unchecked relink update takes effect, the id it
generates for a new row, and how it answers the insert (`InsertReply`): the
row is written and acknowledged, the insert is rejected and nothing is
written, or the row is written but the reply is lost, which the client sees
as an error and turns into `null` (`lib/openChat.ts:51`, `54-57`). An insert
whose generated id is already taken fails, as a primary-key violation would.
`wrappers.dfy` holds the `Option` type (`None` is JavaScript's `null`).

Where the code behaves differently from what one might expect, the model
follows the code:

- A relink might be expected to replace the metadata with the link alone. The
  code spreads the old metadata first (`lib/openChat.ts:29`), so every other
  key survives. `Relinked` models the spread.
- A find-or-update might be expected to be atomic and to report every
  database failure. The code ignores the outcome of the relink update
  (`lib/openChat.ts:26-33`) and turns every thrown error into `null`
  (`lib/openChat.ts:54-57`). The `Gateway.relinkTakesEffect` flag and the
  `None` results model this.
- `if (reportId)` and `reportId ? … : {}` test JavaScript truthiness, so an
  empty string acts like an absent report id (`Given`).

## Model

| member | source | states |
|---|---|---|
| OpenChat.Matches | lib/openChat.ts:14-19 | the pair query selects exactly the rows that are `(a, b)` or `(b, a)` (the filter `Joins`), in table order, each once |
| OpenChat.Resolve | lib/openChat.ts:12-57 | the whole call as a function of the table and the database's decisions (lookup, then relink on a hit when the report id is truthy, `Given`, or insert on a miss; errors to `null`): rows are never removed and never change id or users, at most one row is added, with a fresh id, and the result is then that id or `null`; a `null` result leaves the table as it was unless the insert committed and its reply was lost |
| OpenChat.MaybeSingle | lib/openChat.ts:14-22 | `maybeSingle` answers "no room" iff the pair has no row, "one room" iff exactly one row matches (and names it), and "error" iff two distinct rows match |
| OpenChat.MatchesSymmetric | lib/openChat.ts:17-19 | the pair filter selects the same rows for `(a, b)` and `(b, a)` |
| OpenChat.LookupSymmetric | lib/openChat.ts:14-20 | the lookup's answer does not depend on the order of the two ids |
| OpenChat.FindsEitherOrder | lib/openChat.ts:14-33 | with one room per pair, a room stored as `(A, B)` is returned by a call for `(A, B)` and by a call for `(B, A)` |
| OpenChat.Relinked | lib/openChat.ts:29 | relinked metadata has `report_id` set to the report, `report_context_sent` false, and keeps every other key of the old metadata (null treated as `{}`) with its value |
| OpenChat.InitialMetadata | lib/openChat.ts:43-45 | a new room's metadata is what a relink of empty metadata gives when a report id is given, and `{}` otherwise |
| OpenChat.RoomTable.OpenChatWithUser | lib/openChat.ts:5-58 | the new table and result are those of `Resolve`; ids stay unique, one room per pair is kept, and a returned id names a room of the pair |
| OpenChat.NoDuplicateOnHit | lib/openChat.ts:24-34 | when the pair already has a room, no row is added and every row keeps its id and its two users |
| OpenChat.RelinkMergesMetadata | lib/openChat.ts:25-33 | on a table with unique ids and a hit with a report id whose update lands, the found id is returned, only that room changes, and only in its metadata, which becomes exactly `Relinked` of the old metadata: the two link keys plus the old keys with their values, and no other key |
| OpenChat.NoReportNoChange | lib/openChat.ts:24-34 | on a hit without a truthy report id the table is unchanged and the found id is returned |
| OpenChat.RelinkFailureIgnored | lib/openChat.ts:26-33 | on a hit the found id is returned whether or not the relink update takes effect; when it does not, the table is unchanged |
| OpenChat.InsertOnMiss | lib/openChat.ts:37-53 | on a miss with an acknowledged insert, exactly one row `(generated id, current, target)` is appended, carrying exactly `{report_id, report_context_sent: false}` or `{}`, and its id is returned |
| OpenChat.FailuresReturnNull | lib/openChat.ts:20-57 | the result is `null` exactly when the lookup errs, two or more rooms match, or a miss is followed by an insert that is not acknowledged; a `null` call leaves the table untouched exactly when it is not a committed insert whose reply was lost |
| OpenChat.RetryAfterLostResponse | lib/openChat.ts:37-57 | an insert whose reply is lost returns `null` with the new room `(current, target)` in the table; a retry in either order that reaches the database returns that room's id and adds no row |
| OpenChat.ResultNamesRoomOfPair | lib/openChat.ts:24-53 | a returned id is the id of a room of the table afterwards whose users are the pair |
| OpenChat.AtMostOneRowChanges | lib/openChat.ts:24-53 | on a table with unique ids, a call leaves the table unchanged, appends one row, or changes the metadata of one row and nothing else |
| OpenChat.ResolveKeepsTableInvariants | lib/openChat.ts:14-53 | unique room ids and at most one room per unordered pair both survive a call |
| OpenChat.SwappedSecondCallSameRoom | lib/openChat.ts:14-53 | after a successful call for `(A, B)` on any table, a call for `(B, A)` that reaches the database returns the same id and does not grow the table |

## Left out

- `components/Sidebar.tsx` and `components/Header.tsx`: page rendering, theme switching, navigation and the profile fetch; no logic to verify.
- The Supabase client (`createClient`, the query builder, `async`/`await`): the table is an in-memory sequence and each database decision is a `Gateway` field.
- The PostgREST filter string of `lib/openChat.ts:18`: the model matches ids by equality, which assumes ids contain no filter syntax (commas, dots, parentheses).
- `console.error` logging (`lib/openChat.ts:55`).
- Concurrency: two clients that both miss and both insert would create two rooms for one pair (after which every lookup for that pair errs). The model covers one sequential call; no transaction exists to model.
- Metadata that is a JSON value other than an object or null is not modelled; metadata values that are numbers, arrays or objects are opaque text (`JRaw`), since the merge never looks inside them.
- `.update(...).eq('id', …)` updates every row with that id; under the primary key that is the found row, which is what the model updates.
- Message sending, read receipts, realtime sync, typing indicators and the chat list are not part of this model.
