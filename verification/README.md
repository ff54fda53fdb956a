# mysearch-hub topic log: a Dafny model

This project models the two pieces of sequential logic behind the app's
"add topic" feature.

- **The add-topic handler** (`POST /dashboard` in `app.js`). It normalises
  the query: lower-case, split on `' '`, capitalise each piece, join with
  `' '`. It asks the external encyclopedia for a page summary of the
  normalised title. When that summary has no extract, it searches for the
  normalised query and asks for the summary of the first hit only. A
  non-empty extract is cut to its first two sentences plus `'.'`. A search
  row is saved whether or not any of that worked: a thrown fault sends
  control to the catch block, which saves the row again with the definition
  already computed (the placeholder `No information found` unless a
  truncated extract was reached) and sets a softer flash message.
- **The storage class** `Database` (`database.js`), as in-memory tables.
  `users` has unique usernames and AUTOINCREMENT ids. `searches` rows are
  filtered per user and ordered newest first. Update and delete by id
  reject when no row changed. Clearing a user's rows always succeeds.

Files:

- `wrappers.dfy`: `Option` and `Result`.
- `text.dfy` (module `Text`): ASCII case mapping, JavaScript's `split`
  with a string separator and `join`, `Normalize`, `Truncate`. It also
  holds a character-by-character reference definition of normalisation
  (`TitleCase`) and the laws proved about both.
- `store.dfy` (module `Store`): the rows, one function per SQL statement,
  and the class `Database` whose methods update the tables in place.
- `topics.dfy` (module `Topics`): the external source's replies, the
  resolution chain as a function `Resolve`, and the handler `AddTopic` as a
  method that updates a `Database`.

The external source is represented by the replies it gives at the three
points where the handler may ask: the first summary, the search, and the
summary of the first hit. The handler records the requests it sends, so
the model can state what is asked for and in what order. Whether each of
the two inserts throws is an input too, because the in-memory tables have
no I/O that could fail.

## Model

| member | source | states |
|---|---|---|
| `Text.ToLower` | app.js:196 | a lower-cased character is never an upper-case letter; upper-case letters map to lower-case ones, everything else is unchanged |
| `Text.ToUpper` | app.js:198 | an upper-cased character is never a lower-case letter; lower-case letters map to upper-case ones that lower back to them; everything else is unchanged |
| `Text.LowerCase` | app.js:196 | `toLowerCase` keeps the length and lower-cases every character in place |
| `Text.Find` | app.js:197 | the result is an occurrence of the separator with no earlier occurrence; absent only when the separator does not occur at all |
| `Text.SplitOn` | app.js:197 | `split` gives at least one piece, even for the empty string |
| `Text.SplitOnPieces` | app.js:197 | no piece of a split contains the separator, and every character of a piece comes from the input |
| `Text.FindInPrefix` | app.js:197 | cutting a string after its first occurrence of the separator leaves that occurrence first |
| `Text.CapitalizeAll` | app.js:198 | the `map` keeps the number of pieces and capitalises each one |
| `Text.JoinOfSplit` | app.js:197-199 | joining the pieces of a split with the same separator gives back the original string |
| `Text.SplitOfJoin` | app.js:197-199 | splitting on a one-character separator gives back pieces that were joined with it, provided none of them contains it |
| `Text.TitleCase` | app.js:195-199 | the reference definition keeps the length |
| `Text.TitleCaseKeepsSpaces` | app.js:195-199 | the reference definition keeps every space where it is and creates no new one |
| `Text.CapitalizePiecesIsTitleCase` | app.js:197-199 | on text with no upper-case letters, split, capitalise and join equals the reference definition |
| `Text.TitleCaseOfLowerCase` | app.js:196 | lower-casing first does not change the reference definition |
| `Text.NormalizeIsTitleCase` | app.js:195-199 | the normalised query has each character lower-cased, except that one at the start or right after a space is upper-cased |
| `Text.NormalizeKeepsShape` | app.js:195-199 | normalisation keeps the length, and every space stays a space and nothing else becomes one |
| `Text.SameSpacesSamePieceCount` | app.js:197 | two strings with spaces at the same positions split into the same number of pieces |
| `Text.NormalizeKeepsPieceCount` | app.js:195-199 | the normalised query has as many `' '`-separated pieces as the raw query, empty pieces from doubled spaces included |
| `Text.TitleCaseIdempotent` | app.js:195-199 | applying the reference definition twice equals applying it once |
| `Text.NormalizeIdempotent` | app.js:195-199 | normalising an already-normalised query returns it unchanged |
| `Text.CapitalizeTitled` | app.js:198 | capitalising a piece with no upper-case letters gives a non-lower-case first character and no upper-case letter after it |
| `Text.NormalizedPiecesTitled` | app.js:196-198 | every piece of the normalised query is empty, or has a first character that is not lower-case and no upper-case letter after it |
| `Text.Take` | app.js:228 | `slice(0, n)` is the prefix of the pieces of length `n`, or all of them when there are fewer |
| `Text.SecondBreak` | app.js:228 | the second break it reports is an occurrence of `". "` |
| `Text.SecondBreakIffThreePieces` | app.js:228 | a second `". "` break exists exactly when the extract splits into three or more pieces |
| `Text.Cut` | app.js:228 | the extract cut at its second break is a prefix of the extract |
| `Text.TruncateCutsAtSecondBreak` | app.js:228 | the truncated summary ends in `'.'`; before that `'.'` it is the whole extract when the extract has fewer than two `". "` breaks, otherwise the extract cut just before the second break |
| `Text.FirstTwoPieces` | app.js:228 | with two breaks, `slice(0, 2)` of the split is the text before the first break and the text between the two |
| `Text.SplitOfCut` | app.js:228 | the extract cut before its second break splits into exactly the first two pieces of the extract, or all of them when there are fewer |
| `Text.TruncateKeepsFirstTwoSentences` | app.js:228 | what precedes the final `'.'` splits into exactly the first two sentences of the extract, or all of them when there are fewer |
| `Text.TruncateOneSentence` | app.js:228 | a one-sentence extract `"A."` becomes `"A.."` |
| `Store.UserNamed` | database.js:60-74 | the row returned has the username; absent only when no row has it |
| `Store.UserWithId` | database.js:76-90 | the row returned has the id; absent only when no row has it |
| `Store.OfUser` | database.js:111-112 | exactly the rows whose user id matches, no more rows than the table |
| `Store.WithoutUser` | database.js:171-172 | the surviving rows are exactly those of other users |
| `Store.WithoutId` | database.js:151-152 | the surviving rows are exactly those with another id |
| `Store.Retitled` | database.js:131-132 | same number of rows; a row with the id gets the new title and keeps every other field; every other row is unchanged |
| `Store.InsertNewestFirst` | database.js:112 | inserting one row into a newest-first sequence keeps it newest-first and adds exactly that row |
| `Store.SortNewestFirst` | database.js:112 | `ORDER BY timestamp DESC` gives a newest-first permutation of its input |
| `Store.ClearIdempotent` | database.js:169-183 | clearing a user's rows twice equals clearing them once |
| `Store.ClearKeepsOtherUsers` | database.js:169-183 | clearing one user's rows leaves every other user's rows, in order |
| `Store.DeleteRemovesOne` | database.js:149-167 | with unique ids, deleting an id that exists removes exactly one row |
| `Store.NotPresentKeepsAll` | database.js:151-152 | deleting an id no row has leaves the table as it was |
| `Store.KeepIdsIncrease` | database.js:34 | deleting by id keeps ids strictly increasing along the table |
| `Store.KeepUsersIdsIncrease` | database.js:34 | clearing a user's rows keeps ids strictly increasing along the table |
| `Store.RetitleKeepsIds` | database.js:129-147 | retitling changes no id, so ids still increase along the table and stay among those issued |
| `Store.Database.constructor` | database.js:15-41 | `initialize` drops and recreates `users`, so it starts empty with ids from 1; `searches` is only created if missing, so it keeps the rows and AUTOINCREMENT counter of an earlier run (none and zero for a fresh file) |
| `Store.Database.RegisterUser` | database.js:44-57 | a taken username rejects and changes nothing; otherwise exactly one user is appended with the next id, display name defaulting to the username, and that id is returned; usernames stay unique |
| `Store.Database.FindUserByUsername` | database.js:60-74 | a returned user is in the table and has that name; a user with that name is always the one returned; absent exactly when there is none; changes nothing |
| `Store.Database.FindUserById` | database.js:76-90 | a returned user is in the table and has that id; a user with that id is always the one returned; absent exactly when there is none; changes nothing |
| `Store.Database.InsertSearch` | database.js:92-107 | appends exactly one row with the given fields and timestamp; its id is the counter plus one, larger than every id issued before, deleted ids included; users are unchanged |
| `Store.Database.GetSearches` | database.js:109-127 | returns exactly the user's rows, newest first, possibly none; changes nothing |
| `Store.Database.UpdateSearchTitle` | database.js:129-147 | rejects and changes nothing when no row has the id; otherwise only that row's title changes |
| `Store.Database.DeleteSearch` | database.js:149-167 | rejects and changes nothing when no row has the id; otherwise removes exactly that row and keeps the rest in order; the id counter is kept, so the id is never reissued |
| `Store.Database.ClearSearches` | database.js:169-183 | removes all and only the user's rows; always succeeds |
| `Topics.AddTopic` | app.js:188-241 | sends exactly the requests of the resolution chain; saves one row with the raw query, the title and the computed definition unless the catch block's insert also throws; message "Topic added successfully!" only when nothing threw, the degraded message only on the catch path, type `success` on both; users unchanged |
| `Topics.PrimaryFaultSkipsSearch` | app.js:203 | a primary lookup that throws skips the search: one request, the placeholder, the catch path |
| `Topics.SearchOnlyWithoutExtract` | app.js:207-216 | the search is sent exactly when the primary lookup returned without throwing and without an extract, and only for the normalised query |
| `Topics.OnlyFirstHitFetched` | app.js:203-223 | at most three requests, the first for the normalised query; a third exactly when the search returned a title, and it asks for the first title |
| `Topics.NoHitsIsNotAFault` | app.js:218-224 | no extract and zero search results is not a fault: two requests and the placeholder |
| `Topics.TruncateIsNotPlaceholder` | app.js:228 | a truncated extract never equals the placeholder |
| `Topics.DefinitionFromExtractOnly` | app.js:191-229 | the definition differs from the placeholder exactly when a non-empty extract was reached without a fault, and then it is that extract truncated, the primary one first |

## Left out

- Express routing, views, static files, sessions and their flash plumbing (app.js:10-186, 243-299). The model keeps only the message and message type the add-topic handler chooses.
- Passport, Google OAuth, bcrypt and the login and register routes. Passwords are opaque strings.
- The HTTP requests themselves, URL encoding, timeouts and JSON shapes other than `extract` and the search title list. A reply is a fault or a value given as input.
- Console logging, which has no effect on state.
- SQLite connection set-up, `initialize` (its `DROP TABLE` and `CREATE TABLE`), `close`, and the Promise and callback wrappers. I/O errors of SQLite are left out of the store, whose statements fail only on the UNIQUE constraint or on `this.changes === 0`. In the handler a failing insert is an input, and it leaves the tables untouched.
- `Date.now()` is a parameter. One value serves whichever insert of the handler runs.
- Interleaving of concurrent requests. Every operation runs on its own.
- Case mapping outside ASCII. With it, `toLowerCase` and `toUpperCase` can change a string's length. In this model normalisation keeps the length for every input.
- Store.Database.constructor: the `searches` rows and counter that survive a restart are given to the constructor, not read from `database.db`. Because user ids restart at 1 and rows are matched on `user_id` alone, a user who registers after a restart is handed the earlier run's rows stored under the same id; the model keeps this behaviour rather than correcting it.
- Ids are unbounded. SQLite's 64-bit rowid limit is not modelled.
- The `user_id` column is declared TEXT and is given numeric ids. SQLite's type affinity makes those compare equal, so user ids are numbers in the model.
- Request bodies without `query` or `title`, and `null` fields. The model's fields are always strings, and a display name is either given or absent (`undefined`, which takes the default).
- Ties in `ORDER BY timestamp DESC`: SQL leaves their order open, the code adds no tie-break, and `Store.Database.GetSearches` leaves it open too.
- Normalisation splits on a single `' '` and keeps empty pieces; runs of whitespace are not collapsed, and tabs or newlines are not separators.
- When the catch block's insert also rejects, the rejection escapes the handler, no message is set and no redirect is sent. The model records this as no flash message. There is no separate `PersistenceFailed` error, because the code has none.
- The `|| 'No information found'` at app.js:228 can never take effect, because the left operand ends in `'.'` and is never empty.
- A second, networked storage backend, and thumbnail and image fields. Neither exists in this code.
