# A verified model of the gRPC user service

The service keeps users in a storage behind nine gRPC handlers. This project models the three parts of it that
carry state and loops, and proves what they promise, over every input and every run.

**The user store and its handlers.** `Values` has the messages as values and the fixed-width arithmetic,
`FieldMask` the field mask of UpdateUser, `Filters` the list filter and its clock arithmetic, and `StoreSpec` what
each storage call answers and writes, as functions on a map. `Objects` and `MemoryStorage` are the heap form: user
objects with pointers to profiles, maps, arrays and addresses, deep copies by loop, and a storage class whose methods
refine the map. `Isolation` puts that storage among callers that write any object they can reach: store and replies
are functions of the values passed in. `Handlers` has the nine handlers as small programs that make one storage call
per step; `Streams` says what the three stream handlers mean over whole streams, and `MaskedUpdates` how updates made
one after the other combine. `Server` has the handlers as methods over the heap storage, each proved to do what its
stepwise form does alone, and through `Streams` what its stream means.

**Handlers side by side.** Each storage call holds the lock from start to end, so `Interleaving` runs any number of
handlers with storage calls as atomic steps, in any order. Over all such runs: `Interleaving` (every user sits
under its own non-zero id; the count is conserved), `Serializability` (calls on different users are equivalent to
every serial order of them), `SyncHonesty` (what SyncUsers answers is what it wrote), `FirstAdmin` (when the first
user is an admin), `CreateDates` (when every user keeps a create date) and `LostUpdates` (when two updates of one user
end as some serial order of them does).

**The SQL side.** `QueryBuilder` builds the text of the list query step by step and reads its meaning back from that
text with a parser. `PostgresTable` runs the same handlers over a table of rows, one SQL statement per step,
statements failing at will; `TableCalls` and `TableStreams` say what each call does and answers there alone, the streams
over whole streams, and `TableStatements` reads what the INSERT and the UPDATE do from their columns,
placeholders and arguments. `TableHonesty` and `TableCreations` compare what SyncUsers and UpdateUser answer over the
table with a log of the rows written. `TableSerializability` and `TableNames` say when calls on different users are
equivalent to every serial order of them there, from a given table and from every table, and `TableUpdates` when any
number of updates of one user end as some serial order of them does.

**The counters.** `Metrics` is the request collector with int64 counters, `InFlight` the OpenTelemetry gauge and
counters under interleaving, `MethodName` the splitting of a full method name.

Where a promise is false of the code, the code is kept as it is and the exact condition is proved:

- `cloneUser` drops email and phone although its comment says they are copied (`StoreSpec.ReadBack`), so a later
  answer of UpdateUser can lack them (`MaskedUpdates.UpdatesCompose`).
- The rule that the first user is an admin fails when a delete falls between the count and the insert, and for
  batches and syncs, which do not check it. `FirstAdmin.FirstUserIsAdminExactly` has the condition for all calls.
- UpdateUser fetches and writes in two holds of the lock: of two updates of one user, even with disjoint masks, one can
  be lost although both report success (`LostUpdates.UpdatesAreSerialExactly`). Over the table, where fetch, check and
  UPDATE are three statements, the same goes for any number of updates (`TableUpdates.UpdatesAreSerialExactly`).
- SyncUsers stores an updating message as it came, so that a user can lose its create date
  (`CreateDates.DatesAreKeptFromExactly`, `CreateDates.DatesAreKeptExactly`).
- The fields that SyncUsers reports for an update are a fixed list, which can leave out fields that it changed
  (`SyncHonesty.ReportedFieldsCoverExactly`, over the table `TableHonesty.ReportedFieldsCoverExactly`).
- With a page size the SQL list query has LIMIT before ORDER BY and is no query (`QueryBuilder.BuildQuery`), so that
  ListUsers fails over the table (`TableCalls.ListUsersAnswers`).
- Over the table older_than is cut down to 2^63 - 1 nanoseconds: with a longer one the listing holds users who are not
  that old (`QueryBuilder.SelectionAgainstBoundsExactly`); the in-memory listing does not.
- Over the table AddUser of a user who is there overwrites it instead of refusing, and fills in neither the date nor the
  status (`TableCalls.AddUserAnswers`).
- Over the table SyncUsers and UpdateUser can report an update that wrote nothing
  (`TableHonesty.UpdatesAreWrittenExactly`), and SyncUsers can report a creation that overwrote a user
  (`TableCreations.CreationsAreInsertsExactly`).
- Over the table calls on different users can disturb each other, since usernames are unique over all rows: exactly
  when one of them can write a username while another can write or free one
  (`TableNames.EverySerialOrderAgreesExactly`).
- The role listings cover the store only if every stored role is asked for (`StoreSpec.ListingsAddUp`).
- The average duration is right only while the sum of the durations fits an int64 (`Metrics.AverageIsTrueExactly`).

## Model

| member | source | states |
|---|---|---|
| FieldMask.MaskMeaning | server/server.go:94-138 | A mask of any length succeeds exactly when all its paths are known; it then takes the named fields from the request and all others from the old user; the empty mask names all ten; the first unknown path is the error; id and create date never change |
| FieldMask.MaskByText | server/server.go:94-138 | In the words of the mask: it is accepted exactly when each path is one of the ten texts, and then "email" sets email, "phone" phone, and so for all ten, the empty mask setting them all; otherwise the first other text is the error, with one of its own for "id" |
| FieldMask.MaskIsASet | server/server.go:95-125 | Masks that name the same fields edit alike: order and repetition of paths do not matter |
| FieldMask.NamedByText | server/server.go:101-121 | A field is among those of a mask exactly when its text is in it or the mask is empty |
| FieldMask.NamesAllExactly | server/server.go:101-138 | A mask stands for every field exactly when it is empty or has all ten paths |
| FieldMask.TenPathsAreNoMask | server/server.go:95-138 | A mask with all ten paths, in any order and with any repetitions, does what no mask does |
| FieldMask.KnownPathsMerge | server/server.go:96-125 | The loop over known paths has the effect of the set of fields they name |
| FieldMask.FirstUnknownPathFails | server/server.go:97-124 | The loop stops with an error at the first path that is id or unknown |
| Filters.PassesExactly | server/memory_storage.go:103-123 | Closed form of the filter's three tests, with the drift between the two clock readings and int64 saturation; who has no create date counts as created at the epoch |
| Filters.UnixIsFloor | server/server.go:167-175 | The seconds of a bound are those of its time rounded down, before the epoch as well |
| Filters.ListedWithinBounds | server/server.go:166-180 | Every listed user was created strictly before now minus older_than and after created_since minus one second, for every duration |
| Filters.ClearOfBoundsIsListed | server/server.go:166-180 | Every user with the status that clears the cutoff by a second and the drift is listed, when no age saturates |
| StoreSpec.AddKeeps | server/memory_storage.go:32-55 | What AddUser keeps of a new user, field by field: now for a missing create date, status 1 for 0, no email and no phone, the rest as sent; all others untouched |
| StoreSpec.UpdateKeeps | server/memory_storage.go:71-81 | What UpdateUser keeps of a user who is there: the message without email and phone, whatever was stored before; all others untouched |
| StoreSpec.GetTellsAll | server/memory_storage.go:58-162 | UserExists, Count, ListUsersByRole and the refusals of AddUser, UpdateUser and DeleteUser are all determined by what GetUser says of each id |
| StoreSpec.WritesShow | server/memory_storage.go:32-94 | What GetUser says after an add, an update or a delete: of that user the new state, of any other the old one |
| StoreSpec.DeleteUndoesAdd | server/memory_storage.go:32-94 | A delete after the add of a new user gives back the store |
| StoreSpec.ReadBack | server/memory_storage.go:165-185 | A user added and read back is the one sent exactly when it had no email, no phone and its defaults filled in |
| StoreSpec.RolesPartition | server/memory_storage.go:132-162 | The users in distinct roles are disjoint sets; their sizes sum to the count exactly when every stored role is among them |
| StoreSpec.ListingsAddUp | server/memory_storage.go:132-162 | Listings as ListUsersByRole returns them for distinct roles are together as long as the count exactly when every stored role is among them |
| Objects.CloneUser | server/memory_storage.go:165-185 | The copy shares no object with the original and has its value without email and phone |
| Objects.CloneProfile | server/memory_storage.go:187-199 | A fresh profile of equal value, nil for nil |
| Objects.CloneAddresses | server/memory_storage.go:201-221 | A fresh array of fresh addresses of equal values, nil entries kept |
| Objects.CloneMap | server/memory_storage.go:223-233 | A fresh map with the same entries, nil for nil |
| Objects.CloneIntMap | server/memory_storage.go:235-245 | A fresh map with the same entries, nil for nil |
| MemoryStorage.FillDefaults | server/memory_storage.go:41-49 | Create date and status are filled in, in the caller's message |
| MemoryStorage.Skips | server/memory_storage.go:104-123 | A user is skipped exactly when it does not pass the filter |
| MemoryStorage.Storage.AddUser | server/memory_storage.go:32-55 | Refines the map: inserts a copy with the defaults or reports that the id exists; touches nothing of the caller's but the two fields |
| MemoryStorage.Storage.GetUser | server/memory_storage.go:58-68 | A fresh copy of the stored user, or NotFound |
| MemoryStorage.Storage.UpdateUser | server/memory_storage.go:71-81 | Replaces the stored user by a copy, or NotFound |
| MemoryStorage.Storage.DeleteUser | server/memory_storage.go:84-94 | Removes exactly the one user, or NotFound |
| MemoryStorage.Storage.ListUsers | server/memory_storage.go:97-129 | For any visiting order: each user that passes once, no other, as fresh copies |
| MemoryStorage.Storage.ListUsersByRole | server/memory_storage.go:132-145 | For any visiting order: each user of the role once, no other, as fresh copies |
| MemoryStorage.Storage.UserExists | server/memory_storage.go:148-154 | Whether the id is stored |
| MemoryStorage.Storage.Count | server/memory_storage.go:157-162 | The number of stored users |
| Isolation.Turn | server/memory_storage.go:32-162 | Whatever callers do to their objects first, each of the eight storage calls acts on the map with the value passed in, returns objects, errors, flags and numbers as the map answers, and keeps both sides apart |
| Isolation.Interleave | server/memory_storage.go:32-162 | Over every sequence of storage calls and caller writes the final store and every reply are those of the map of the values passed in, and no object is reachable from both sides |
| Objects.Decode | server/server.go:231-231 | A received message is made of new objects with its value |
| Handlers.ServeAddUser | server/server.go:36-62 | AddUser alone: which check refuses, in order, and the insert otherwise |
| Handlers.AddUserInFull | server/server.go:36-62 | AddUser alone, in full: the five refusals in their order, and otherwise the user that is stored, defaults and dropped contact data included |
| Handlers.ServeUpdateUser | server/server.go:79-146 | UpdateUser alone: which check refuses, and otherwise a write of the edited copy |
| Handlers.ServeDeleteUser | server/server.go:149-160 | DeleteUser alone: id 0 and missing users are refused; otherwise exactly that user goes |
| Handlers.ServeGetUser | server/server.go:65-76 | GetUser alone: id 0 and missing users are refused; otherwise the stored copy |
| Handlers.ServeListUsers | server/server.go:163-202 | ListUsers alone: only users within the bounds of the request and all that are clear of them, NotFound when nobody passes, whatever the page size |
| Handlers.ServeListUsersByRole | server/server.go:205-223 | ListUsersByRole alone: the stored users with the role, NotFound when there are none |
| Handlers.BatchReachesNext | server/server.go:230-270 | One turn of the batch loop: refused, already there, or added |
| Handlers.SyncReachesNext | server/server.go:321-380 | One turn of the sync loop: alone, what the existence check found still holds at the write |
| Handlers.ActivityReachesNext | server/server.go:275-316 | One turn of the activity loop, with fetch and write for a login |
| Streams.RefusalPositions | server/server.go:247-267 | Error positions are strictly increasing positions of the stream, one for each message that is not accepted |
| Streams.BatchMeaning | server/server.go:226-271 | A whole batch: the old store plus, for each new id, the first valid message with the add defaults; every message is counted once, added is the growth of the store, the errors are those of the refused messages |
| Streams.LastForIsLast | server/server.go:321-380 | The message that counts for an id is the last one sent for it |
| Streams.SyncMeaning | server/server.go:320-381 | Every solo run: one answer per message in order, FAILED exactly for id 0; each non-zero id sent holds its last message, with the add defaults, at the reading of the clock of its write, only when that message inserted it; nothing else changes |
| Streams.LastLoginIsLast | server/server.go:302-311 | The activity that counts for a user is its last LOGIN |
| Streams.ActivityMeaning | server/server.go:274-317 | Every solo run: one reply per activity in order, acknowledged exactly when the user exists; only last logins change, to the timestamp of the last LOGIN |
| Server.EditCopy | server/server.go:94-138 | The loop over the mask, in place on the fetched copy, computes the edit that the mask means |
| Server.AssignField | server/server.go:101-121 | One case of the switch assigns exactly its field and leaves the request alone |
| Server.AssignAll | server/server.go:127-137 | Without a mask every field but id and create date is assigned |
| Server.UserServer.AddUser | server/server.go:36-62 | The method does to store and answer what the stepwise AddUser does alone |
| Server.UserServer.GetUser | server/server.go:65-76 | As the stepwise GetUser alone; the user returned is fresh |
| Server.UserServer.UpdateUser | server/server.go:79-146 | As the stepwise UpdateUser alone; a refused mask leaves the store as it was |
| Server.UserServer.DeleteUser | server/server.go:149-160 | As the stepwise DeleteUser alone |
| Server.UserServer.ListUsers | server/server.go:163-202 | Sends each user that passes the request's filter once and no other; NotFound exactly when there is none; whoever is sent is within the bounds of the request and whoever is clear of them is sent |
| Server.BoundsOfMatching | server/server.go:163-202 | End to end, for every duration and every clock that does not run backwards: a listing holds only users within the request's age bounds and status, and all that clear them |
| Server.UserServer.ListUsersByRole | server/server.go:205-223 | Sends each user of the role once and no other; NotFound exactly when there is none |
| Server.UserServer.BatchAddUsers | server/server.go:226-271 | The loop over heap messages has the meaning of the whole batch, with counts and positions as int32 |
| Server.SummaryIsExact | server/server.go:227-268 | Up to 2^31 - 1 messages, and no further, the summary is exact: received = added + failed, added is the growth of the store, one error for each failure |
| Server.UserServer.UserActivityStream | server/server.go:274-317 | The loop over the heap storage has the meaning of the whole activity stream |
| Server.UserServer.SyncUsers | server/server.go:320-381 | The loop over heap messages has the meaning of the whole sync, the write of message i being made at the i-th reading of the clock |
| Interleaving.ExecSolo | server/server.go:36-381 | A handler that steps with the others standing still is the handler running alone |
| Interleaving.AlwaysWellKept | server/memory_storage.go:32-94 | In any interleaving of all nine handlers every user sits under its own id, id 0 is never stored, and what is stored is a stored copy |
| Interleaving.CountIsConserved | server/memory_storage.go:157-162 | In any interleaving the count is that of the start plus the inserts minus the deletes that callers have been told of |
| CreateDates.CalmNext | server/server.go:37-56 | Kept by every step: while a message without a date waits whose user only a refused AddUser could insert, nothing has been stored |
| CreateDates.DatesSurviveFrom | server/server.go:345-377 | From a given store of dated users, all users keep a create date in all interleavings if no sync sends a message without a date whose user can be there when it comes |
| CreateDates.DatesAreKeptFromExactly | server/server.go:345-377 | From any given store, the empty one included, exactly then: the user can be there if it is stored, sent before in that stream, or inserted before by another call, for which AddUser of someone who is no admin needs a store that is not empty or that another call can open |
| CreateDates.DatesAreKeptExactly | server/server.go:355-377 | From all stores of dated users alike: exactly when every message with an id that a sync sends has a date |
| CreateDates.UndatedMessageShows | server/server.go:355-363 | A sync message without a date for a user who is stored, or was sent before, takes the date away |
| Serializability.StepFrame | server/server.go:79-160 | One step of a handler depends on and changes only the users it names |
| Serializability.DisjointCallsDoNotInterfere | server/server.go:79-160 | For calls on disjoint sets of users, the interleaving of their steps matters neither to the store nor to any answer |
| Serializability.EverySerialOrderAgrees | server/server.go:226-381 | Any interleaving of such calls, streams included, ends as every serial order of them does |
| SyncHonesty.LogIsComplete | server/memory_storage.go:32-94 | Replaying the log of writes gives the final store, and each write was an insert, replacement or removal when it happened |
| SyncHonesty.SyncAnswersAreHonest | server/server.go:345-377 | Under any interleaving SUCCESS stands for exactly one write by that message, "created" for an insert of it, an update for its replacement; FAILED means that it wrote nothing |
| SyncHonesty.ReportedFieldsCoverExactly | server/server.go:355-363 | When SyncUsers updates a user, the fixed list of updated fields covers all that changed exactly when create date, tags, metadata, last login and addresses did not |
| FirstAdmin.AllKeptNext | server/server.go:226-381 | Kept by every step: what a batch or sync has added, and what a sync has found, remains stored unless a call deletes it |
| FirstAdmin.GuardNext | server/server.go:37-56 | Kept by every step, when no call deletes a user who can open the store: nothing has been stored and no add but an admin's is pending, or a user is stored whom no call deletes |
| FirstAdmin.AlwaysFirstUnless | server/server.go:36-62 | Unless the calls are breakable, every step of every interleaving that fills the empty store adds an admin |
| FirstAdmin.ExposedAddBreaks | server/server.go:37-56 | The run in which a delete between count and insert breaks the rule, for every call that can open the store |
| FirstAdmin.ExposedStreamBreaks | server/server.go:249-262 | The run in which a batch or sync comes to someone who is no admin after all it added was deleted |
| FirstAdmin.FirstUserIsAdminExactly | server/server.go:36-62 | For all families of calls: the first user is an admin in all interleavings exactly when no batch or sync is exposed by deletes and no AddUser of someone who is no admin meets a call that opens the store with a deletable user |
| FirstAdmin.FirstUserIsAdminWithoutStreamsExactly | server/server.go:36-62 | Without batches and syncs: exactly when there are no admin, other user and delete of that admin together |
| FirstAdmin.FirstUserIsAdminWithoutDeletesExactly | server/server.go:36-62 | Without deletes: exactly when each batch and sync leads with an admin |
| MaskedUpdates.UpdateMeaning | server/server.go:88-145 | On the store, a known mask replaces exactly the named fields; every refusal leaves the store as it was |
| MaskedUpdates.UpdatesCompose | server/server.go:95-140 | One after the other, two updates from one request leave what one update with the union of the masks leaves; the answers agree exactly when no email or phone was dropped in between |
| MaskedUpdates.DisjointUpdatesCommute | server/server.go:95-140 | One after the other, updates of one user with disjoint masks commute, whatever the requests hold |
| LostUpdates.AlwaysEditing | server/server.go:89-145 | In any interleaving of two updates whose masks agree on all that is kept, both edit the user that was there at the start, and the last write is kept |
| LostUpdates.UpdateIsLost | server/server.go:89-145 | When both updates fetch before either writes, the one written first is lost, and both report success |
| LostUpdates.UpdatesAreSerialExactly | server/server.go:89-145 | Two updates of one user with known masks: from every well kept store and in every complete interleaving, store and answers are those of a serial order exactly when the masks name the same fields apart from email and phone |
| QueryBuilder.ConditionsRoundTrip | server/postgres_storage.go:448-463 | Conditions written as text are read back, column, operator and placeholder, by a tokenizer that knows only SQL's own words |
| QueryBuilder.PagedTextIsNoQuery | server/postgres_storage.go:464-471 | With LIMIT before ORDER BY the text is no query |
| QueryBuilder.TextInFull | server/postgres_storage.go:448-471 | The text sent for a filter, letter by letter after the fixed SELECT: which conditions, with which numbers, a limit before the order |
| QueryBuilder.TextMeans | server/postgres_storage.go:448-471 | Read back from its characters, the text is a query exactly without a page size, has placeholders $1 to $n for n arguments, and selects exactly the rows that the filter accepts |
| QueryBuilder.SelectionAgainstBoundsExactly | server/postgres_storage.go:448-471 | For a request, every clock and every row: whoever the text selects is within the bounds exactly when older_than is at most 2^63 - 1 nanoseconds, and all who clear them by a second are selected exactly when it is above -2^63 |
| QueryBuilder.AddCondition | server/postgres_storage.go:449-463 | One conditional step keeps the text, the arguments and the index those of the tests so far |
| QueryBuilder.BuildQuery | server/postgres_storage.go:438-471 | The builder's text and arguments are those above; read back, they select exactly what the filter accepts, and with a page size they are no query |
| QueryBuilder.MemoryAgainstDatabase | server/memory_storage.go:103-123 | The in-memory filter passes exactly the users that the query selects and whose age counts despite drift and saturation, so a subset |
| PostgresTable.RowGivesBack | server/postgres_storage.go:123-198 | What is read back from a row: a missing create date is the epoch, a missing profile an empty one; it is the user written exactly when that had both |
| PostgresTable.StepKeepsDates | server/postgres_storage.go:158-179 | No statement of any handler assigns create_date of a row that stays |
| PostgresTable.CreateDateIsFixed | server/postgres_storage.go:319-370 | In any interleaving of all handlers with failing statements, a row's create_date is the same from its insertion to its deletion |
| PostgresTable.NamesStayUnique | server/postgres_storage.go:158-179 | No interleaving gives two users one username |
| TableCalls.AddUserAnswers | server/postgres_storage.go:112-206 | AddUser alone over the table: the refusals in their order, a username of another row included, and otherwise the row that is there afterwards, new or overwritten, with its create date |
| TableCalls.GetUserAnswers | server/postgres_storage.go:209-306 | GetUser alone: id 0 and missing rows refused, otherwise the user read back |
| TableCalls.UpdateUserAnswers | server/server.go:79-146 | UpdateUser alone over the table: every refusal, and otherwise the row of the edited user with the create date that was there |
| TableCalls.DeleteUserAnswers | server/postgres_storage.go:401-426 | DeleteUser alone: id 0 and missing rows refused, otherwise exactly that row goes |
| TableCalls.ListUsersByRoleAnswers | server/postgres_storage.go:548-637 | ListUsersByRole alone: exactly the users read back from rows with the role, NotFound exactly when there is none |
| TableCalls.RoleListingsAddUp | server/postgres_storage.go:548-637 | Listings of distinct roles are disjoint, and as long together as the table exactly when every role present is asked for |
| TableCalls.ListUsersAnswers | server/postgres_storage.go:429-545 | ListUsers alone: with a page size it fails; otherwise exactly the users of the rows that the text selects, NotFound when none, within the bounds of the request for every older_than up to 2^63 - 1 nanoseconds, and with all who clear them |
| TableStreams.ReceivedMeans | server/postgres_storage.go:158-179 | After a batch or sync each user's row is the one before if no message of it was written, else that of the last one written, with the create date that was there or the first one's |
| TableStreams.WrittenAreLastAndFirst | server/server.go:230-270 | The messages that count are the last and the first that are written: with an id, in a batch with a username, and with no other row holding that name |
| TableStreams.RefusalPositions | server/server.go:247-267 | A batch has one error for each message not written, at strictly increasing positions, saying which check refused |
| TableStreams.BatchAnswers | server/server.go:226-271 | A whole batch over the table: every message counts once, as added or as an error; a user who is there is overwritten |
| TableStreams.SyncAnswers | server/server.go:320-381 | A whole sync over the table: one answer for each message in order, failed for id 0 and for a taken username, updated for who is there, created for who is not |
| TableStreams.ActivityAnswers | server/server.go:274-317 | A whole activity stream over the table: one reply for each activity, acknowledged exactly when the row is there; only last logins change, to that of the last LOGIN |
| TableStatements.InsertMakesTheRow | server/postgres_storage.go:158-198 | Of the 16 columns each gets its own argument: the INSERT makes exactly the row of the user |
| TableStatements.ConflictMakesTheRow | server/postgres_storage.go:164-179 | The conflict clause makes exactly the row of the user with the create date and id that were there |
| TableStatements.UpdateMakesTheRow | server/postgres_storage.go:363-388 | The placeholders $2 to $15 give each of the 14 columns its own argument: the UPDATE makes exactly the row of the user with the create date that was there |
| TableStatements.CreateDateIsNotSet | server/postgres_storage.go:164-179 | Neither SET list has create_date or id |
| TableStatements.CellsTellTheRow | server/postgres_storage.go:72-88 | A row is known by its cells |
| TableStatements.UpsertIsTheStatement | server/postgres_storage.go:158-198 | The table's upsert leaves the one row that the columns, placeholders and arguments of the INSERT with its conflict clause allow, and changes no other row |
| TableStatements.UpdateRowIsTheStatement | server/postgres_storage.go:363-388 | The table's update leaves the one row that the columns, placeholders and arguments of the UPDATE allow, and changes no other row |
| TableHonesty.LogIsComplete | server/postgres_storage.go:112-426 | Replaying the log of row writes gives the table |
| TableHonesty.AnswersAreTold | server/server.go:345-377 | Over the table, in any interleaving with failing statements: FAILED means no write, "created" exactly one upsert of that user, "updated" and the user UpdateUser returns at most one update to that user |
| TableHonesty.UpdatesWrittenUnlessDeleted | server/server.go:140-146 | No update is lost when no call deletes a user that a sync sends or an update is for |
| TableHonesty.UpdateGetsLost | server/postgres_storage.go:319-397 | Otherwise, without any statement failing, a delete between check and UPDATE gives a report of success for nothing written |
| TableHonesty.UpdatesAreWrittenExactly | server/server.go:355-364 | For all families of calls: every update reported by SyncUsers or UpdateUser has written its row, in all interleavings from all tables, exactly when no call deletes a user that a sync sends or an update is for |
| TableHonesty.ReportedFieldsCoverExactly | server/server.go:355-363 | Over the table: when SyncUsers updates a row, the fixed list of updated fields covers all that changed exactly when email, phone, tags, metadata, last login and addresses did not |
| TableCreations.CreationOverwrites | server/server.go:365-374 | The run in which a sync reports a creation that overwrote what another call had inserted |
| TableCreations.CreationsAreInsertsExactly | server/server.go:365-374 | For all families of calls: every creation that SyncUsers reports is an insert, in all interleavings from all tables with failing statements, exactly when no other call can insert a user that it sends |
| TableCreations.CreationOverwritesFaultFree | server/server.go:365-374 | The run in which that happens without any statement failing |
| TableCreations.CreationsAreInsertsExactlyFaultFree | server/server.go:365-374 | The same equivalence over runs without failing statements, for calls whose messages for different users carry different usernames |
| TableSerializability.IssueFramed | server/postgres_storage.go:158-206 | One statement of a call acts alike over two tables that have the same rows for its users and in which each username of the call is held by some row elsewhere in both or in neither; it changes only the rows of its own users |
| TableSerializability.ApartCallsDoNotInterfere | server/postgres_storage.go:112-426 | For calls apart in users and usernames, the interleaving of their statements matters neither to the table nor to any answer, with any statements failing |
| TableSerializability.EverySerialOrderAgrees | server/postgres_storage.go:112-426 | From a given table, any interleaving of calls on different users, none of which can write a username that another can write or a row of another holds, ends as every serial order of them does; an update whose mask leaves out the username writes none |
| TableNames.QuietStep | server/postgres_storage.go:309-398 | A statement of a call that neither inserts nor deletes and only writes usernames back takes the same way over all tables that agree on its rows, whatever names other rows hold, and leaves all usernames as they were |
| TableNames.OneNamerAgrees | server/postgres_storage.go:158-206 | With one call that can write usernames and none that deletes, any interleaving ends as every serial order does, whatever names the table holds |
| TableNames.NamersCollide | server/postgres_storage.go:73-73 | For any two calls on different users that can both write a username, a table and a run, without any statement failing, in which the order of the two matters to the rows |
| TableNames.DeleteFreesName | server/postgres_storage.go:73-73 | The same for a call that can write a username and the delete of the row that holds it |
| TableNames.EverySerialOrderAgreesExactly | server/postgres_storage.go:112-426 | For all families of calls on different users: from every table, every interleaving ends as every serial order of the calls does exactly when no call can write a username while another can write or free one; so with failing statements and without |
| TableUpdates.EditStep | server/postgres_storage.go:309-398 | Whichever update of the user has written last, a statement of another one with an agreeing mask goes on as over the first row, and its UPDATE leaves the row of its own edit |
| TableUpdates.AgreedAreSerial | server/server.go:79-146 | Any number of updates of one user whose masks name the same fields: every interleaving, complete or not, with any statements failing, ends as some serial order does |
| TableUpdates.LossIsReal | server/server.go:79-146 | If one mask names a field that another does not, a complete run in which both report success ends in a row that no serial order leaves |
| TableUpdates.UpdatesAreSerialExactly | server/server.go:79-146 | For any number of updates of one user: from every table and in every complete interleaving, table and answers are those of some serial order exactly when all masks that are not refused name the same fields, email and phone included |
| Metrics.MetricsCollector.RecordRequest | interceptors/metrics.go:78-89 | Counters and maps stay those of the history, which grows by the one request |
| Metrics.MetricsCollector.Reset | interceptors/metrics.go:141-149 | The history is empty again |
| Metrics.MetricsCollector.GetStats | interceptors/metrics.go:92-124 | For any visiting order: both totals, and for every method that had a request, and no other, its count and average |
| Metrics.SumAppends | interceptors/metrics.go:109-112 | Each duration counts once in the sum, wherever it stands |
| Metrics.TotalOf | interceptors/metrics.go:109-112 | However the additions wrap on the way, the total is the wrapped sum |
| Metrics.StatsOfOne | interceptors/metrics.go:78-124 | After one request: one request, one error if it failed, and its duration as the average of its method |
| Metrics.StatsOfSplit | interceptors/metrics.go:78-124 | However the history is split in two, requests, errors, counts and sums of durations are those of the two parts together |
| Metrics.StatsAddUp | interceptors/metrics.go:78-124 | After any run the total is the sum of the method counts modulo 2^64; up to 2^63 - 1 requests it is the sum, the totals are exact and errors never exceed requests |
| Metrics.AverageIsTrueExactly | interceptors/metrics.go:109-113 | The reported average is the truncated average exactly when the sum fits an int64 |
| Metrics.AverageIsBetween | interceptors/metrics.go:109-113 | With a sum that fits, the average lies between the smallest and the largest duration |
| Metrics.OverflowLeavesTheBounds | interceptors/metrics.go:109-113 | Two durations of 2^63 - 1 are reported with an average of -1 |
| InFlight.StreamKindsDiffer | interceptors/otel_interceptors.go:339-348 | Which text each kind of stream has; the four differ from each other and from unary |
| InFlight.MetersAreExact | interceptors/otel_interceptors.go:234-262 | In every reachable state of any interleaving the gauge of an attribute set is the number of its requests in progress, and each counter of a status set is the number of requests past it |
| InFlight.CountersAreOrdered | interceptors/otel_interceptors.go:279-310 | Errors are at most requests per status set, and the requests lie between those finished and those returned |
| InFlight.TotalIsBetween | interceptors/otel_interceptors.go:279-310 | Over all status codes the request counter lies between finished and started requests |
| InFlight.QuietMeters | interceptors/otel_interceptors.go:234-262 | With nothing in progress the gauge is 0 and the counters are the finished and the failed requests |
| InFlight.AloneCountsOnce | interceptors/otel_interceptors.go:234-262 | One request leaves the gauge where it was and counts once, under its own labels only: a success under OK, a failure under its own code |
| InFlight.OtelMetrics.Intercept | interceptors/otel_interceptors.go:234-262 | The interceptor's body is the six steps of the machine |
| MethodName.ExtractService | interceptors/otel_interceptors.go:316-327 | What precedes the first slash after a leading one |
| MethodName.ExtractMethod | interceptors/otel_interceptors.go:329-337 | What follows the last slash |
| MethodName.BuiltNameComesApart | interceptors/otel_interceptors.go:316-337 | A name built from a service and a method without slashes comes apart into these |
| MethodName.RoundTripExactly | interceptors/otel_interceptors.go:316-337 | Service and method put together give the name exactly when it begins with a slash and has exactly one more |

## Left out

- JWT and API-key checks, TLS and certificates, tracing spans, logging, the gateway, the web UI and the command-line
  programs: I/O, foreign calls or single checks.
- Protobuf, JSON and the pgx driver: a nil slice or map and an empty one are one value, as on the wire; a timestamp is a
  count of nanoseconds and does not overflow the seconds of its message; Postgres' rounding to microseconds and its
  column lengths are not modelled, and a user that reads back from the table may differ in that.
- Timestamp messages are values: the copies share them with the original, which matters only if someone writes to one.
- Stream receive and send errors, context cancellation, panics, and fairness of the lock.
- The texts of error and response messages; the errors themselves and the positions in a batch are modelled. The time
  in a batch summary is left out.
- Paging: the in-memory listing ignores it, and over the table a page size makes the query invalid.
- The rows of a listing that fail to scan, which the source skips.
- Handlers.Step: a listing among interleaved handlers uses one reading of the clock; the two readings for each user are
  in `MemoryStorage.Storage.ListUsers` and in the lemmas of `Filters`.
- Handlers.BatchReachesNext: the stepwise batch counts without bound; the int32 counts are those of
  `Server.UserServer.BatchAddUsers`.
- Serializability.EverySerialOrderAgrees: AddUser and the two listings are excluded, since they look at the whole store;
  each handler has the clock readings of its own steps in both runs.
- Server.UserServer.UserActivityStream: its whole-stream meaning is stated for well kept stores, which
  `Interleaving.AlwaysWellKept` shows to be all reachable ones.
- Isolation.CallersAct: stands for code outside the repository; only its contract is used.
- Isolation.Turn: a listing is made with one pair of clock readings for all users.
- LostUpdates.UpdatesAreSerialExactly: two updates only, and nothing else beside them; `TableUpdates` has any number.
- TableUpdates.UpdatesAreSerialExactly: nothing else beside the updates.
- TableHonesty.UpdatesAreWrittenExactly: the id column has 32 bits with a sign, so that statements for ids from 2^31 on
  always fail; the table of the model has room for them, and for such ids only the sufficient half describes the code.
- TableCreations.CreationsAreInsertsExactly: likewise.
- TableCalls.AddUserAnswers: for ids below 2^31, as are the other lemmas of `TableCalls` and `TableStreams`.
- TableStreams.SyncAnswers: each whole stream is answered at one reading of the clock, as are the other two.
- TableCreations.CreationsAreInsertsExactlyFaultFree: without the assumption on usernames, a message before the one in
  question may take its username; which ones then stand in the way is not worked out.
- TableSerializability.EverySerialOrderAgrees: AddUser and the two listings are excluded, as over the in-memory store.
- TableNames.EverySerialOrderAgreesExactly: likewise; the runs that tell two orders apart end with the statement that
  makes the difference.
- Metrics.MetricsCollector.GetStats: without the floating-point error rate and the formatting of the average; the number
  of durations of one method is taken to fit an int.
- InFlight.MetersAreExact: the counters do not wrap, the histogram is reduced to how many values it has, and a handler
  that panics is not modelled.
- QueryBuilder.BuildQuery: the line breaks at the beginning of the query text are single spaces.
- PostgresTable.CreateDateIsFixed: a statement that fails changes nothing; a commit whose confirmation is lost is not
  modelled.
