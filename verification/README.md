# ESDB: a verified model of the state and storage library

ESDB is a C++ state and storage library with a JavaScript facade. This project models the parts whose behaviour its own code
decides, and proves what they promise. `dafny verify dfyconfig.toml` checks everything.

* **Process-memory Store** — `journal`, `memory_store`, `replica`, `facade_subscription`, `paging`, `byte_order`, `registry`.
  `MemoryStore` is a class with the source's fields and a ghost log of every successful mutation; `Valid` says all fields are a
  function of that log. Replica convergence and the registry are state machines over runs of any length; a `Replicas` step is what
  the contracts of `MemoryStore` and `Subscription.Poll` allow. Callbacks may call back into the Store. The facade's own
  subscription runs handlers that may write, poll it, close it and throw; `StoreSubscription` is proved to do what the functions
  `AfterPoll`, `AfterLoop`, `AfterCall` and `AfterRun` say, and the results over whole lives are about those.
* **Durable ObjectStore and transactions** — `sqlite`, `runtime`, `object_tables`, `object_store`, `durable`, `connection`,
  `migration`, `schema_race`. SQLite is a small machine (content, committed content, autocommit flag, named savepoints, newest name
  first, ignoring case). `Database` mirrors `esdb_database`; its operations issue the same statements in the same order, any of
  which may fail. `connection` ties the runs of `durable` to those operations and to the durable subscription.
* **Handle tables** — `arithmetic`, `handles`, `locks`. One class for both tables, with the number of slot bits as a parameter; the
  lock order is a state machine of its own.
* **Codecs and wires** — `utf8`, `utf16`, `text_codec`, `decimal`, `integers`, `lines`, `framing`, `parameter_packet`, `patch_packet`,
  `query_result`, `rows_wire`. JavaScript strings are sequences of 16-bit units; each parser is a loop proved equal to a definition by
  lines or characters, and each printer and parser pair is proved to round-trip.

An allocation or a statement may fail at any point where the source can fail there. Each component has a flag `reliable` under which
nothing fails, so that contracts also say what succeeds. Masks and shifts are written as remainders and quotients of the same powers
of two; counters of the source are natural numbers with the source's own bounds (`REVISION_MAX`, 2^31 - 1) explicit.

What is assumed, besides:

* the ObjectStore tables were created in a committed transaction (the ready flag at src/esdb_object_store.cpp:696 is set even when an outer
  transaction that created them rolls back later);
* SQL text given to `esdb_exec` or `esdb_query` holds no SAVEPOINT, RELEASE or ROLLBACK TO, and does not end the caller's transaction
  and begin another in one text: both resynchronise the flags by asking for autocommit alone, and the depth only when it is back
  (src/esdb_runtime.cpp:927-938 and 1171-1182);
* for the results on committed history: raw statements and migration callbacks extend the ObjectStore's history, if they touch it at
  all (`Connection.Allowed`); every operation of the library is proved to;
* ROLLBACK and ROLLBACK TO succeed when there is something to roll back; callbacks of a migration do not end its transaction; one
  connection migrates at a time, and versions stay below 2^31;
* revisions given out inside an outer transaction are provisional, so durable delivery is stated for committed contents.

Where code and documentation differ: docs/STORE.md calls put, delete and prune complete mutations; a prune is a single statement without a
mutation scope, and `PruneObjectChanges` follows the code. A whole number beyond 32 bits is sent as INT64 in a SQL parameter but as DOUBLE in a
Store patch; `ParameterPacket.FieldOf` and `PatchPacket.PatchFieldOf` both follow the code.

docs/STORE.md:152 says a callback that polls its own subscription gets BUSY. That is so for the native subscriptions
(`MemoryStores.Subscription.Poll`, `Connection.ObjectSubscription.Poll`); the facade's own has no such guard. docs/STORE.md:211 says that
keys with embedded U+0000 round-trip; the facade prints them, but the adapter refuses every key with an octet 0.

Where a statement one would expect does not hold of the code, there is an input that shows it and the exact condition:

| expected | input | holds if and only if |
|---|---|---|
| the facade's subscription shows every wanted change up to its cursor exactly once | `ReentrantPollLosesItsPlace`, `CloseInAHandlerDrops`, and any subscription without a handler (`UnheardLoop`) | no handler was called by a poll that its own subscription's handler made, none threw, and there was a handler whenever a wanted change was passed (`FacadeSubscription.ExactlyOnceIff`); at least once whenever there was a handler (`AtLeastOnce`) |
| a patch that the facade prints arrives | `PatchPacket.NulKeyIsLost` | the packet is at most 16 MiB, no key encodes an octet 0, and strtod reads the text of every number (`PatchPacket.SendPatch`) |
| a durable change query gives every change after its cursor | `Durable.PrunedChangeIsMissed` | the cursor is the durable revision, or the revision after it is still a row (`Durable.QueryIsCompleteIff`); for one store: every row of that store after the cursor is (`FilteredQueryIsCompleteIff`) |
| the rollback of a mutation leaves SQLite as it was | `Runtime.LeftoverOccurs` | the mutation had its own transaction or its RELEASE succeeded (`Runtime.Database.RollbackStoreMutation`); what is left is invisible to the caller (`RestoredShowsNothing`) |
| a rows reply decodes in number mode | | every integer is safe (`RowsWire.RowsRoundTrip`) |

## Model

| member | source | states |
|---|---|---|
| ByteOrder.ByteLess | src/esdb_store.cpp:19-30 | the comparator loop decides the byte-wise lexicographic order |
| ByteOrder.StrictTotalOrder | src/esdb_store.cpp:19-30 | that order is irreflexive, transitive and total, so it can order a map |
| Journal.JournalAgreesWithRecords | src/esdb_store.cpp:394-416 | replaying the complete journal from nothing gives exactly the key -> (type, revision) view of the records, for every history |
| Journal.RecordIsLatestPut | src/esdb_store.cpp:394-416 | a live record carries the revision and value of its key's latest PUT and nothing has touched the key since |
| Journal.LatestPutIsRecord | src/esdb_store.cpp:394-416 | and a key whose latest mutation is a PUT is live, whatever happened to other keys |
| Journal.ChangesPrefix | src/esdb_store.cpp:137-143 | journal entries never change once written |
| Journal.FilteredFold | extendscript/esdb.jsx:1502-1510 | dropping other keys' changes before folding loses nothing about the filtered key, CLEAR included |
| MemoryStores.RetainedExactly | src/esdb_store.cpp:137-143 | the journal holds exactly the revisions floor+1..revision, and is shorter than 4096 only while the floor is 0 |
| MemoryStores.PushBounded | src/esdb_store.cpp:137-143 | the push-then-evict loop keeps the newest 4096 changes and moves the floor to the last evicted revision |
| MemoryStores.BoundedRetains | src/esdb_store.cpp:137-143 | one bounded push takes the retained journal of a history to that of the longer history |
| MemoryStores.PatchRefinesPuts | src/esdb_store.cpp:432-520 | putting the entries one by one succeeds exactly when the revision domain has room for all of them and ends in the state of the whole patch, repeated keys and evictions included |
| MemoryStores.StagePatch | src/esdb_store.cpp:462-505 | the copy-on-write loop builds that state beside the live one, or nothing |
| MemoryStores.MemoryStore.Put | src/esdb_store.cpp:349-430 | OK appends one mutation to the history and updates every field accordingly; any failure leaves the Store unchanged |
| MemoryStores.MemoryStore.Patch | src/esdb_store.cpp:432-520 | OK is the fold of the entries as puts; the revision bound refuses exactly the patches that do not fit; failures change nothing |
| MemoryStores.MemoryStore.Remove | src/esdb_store.cpp:545-598 | a present key is deleted under the next revision, a missing one changes nothing and succeeds |
| MemoryStores.MemoryStore.ClearRecords | src/esdb_store.cpp:640-687 | a non-empty Store is emptied under one revision, an empty one is left alone |
| MemoryStores.MemoryStore.Scan | src/esdb_store.cpp:689-756 | delivers the records of one page as they were at the start of the scan, whatever the callbacks do to the Store, up to the first that a callback stops or throws at, and otherwise all |
| MemoryStores.MemoryStore.SnapshotChanges | src/esdb_store.cpp:206-218 | the locked loop copies exactly the window after the cursor |
| MemoryStores.WindowIsContiguous | src/esdb_store.cpp:206-218 | a window is the contiguous run of revisions starting at after + 1, cut only by the limit |
| MemoryStores.MemoryStore.ChangesSince | src/esdb_store.cpp:171-255 | GAP iff below the floor, invalid iff beyond the revision or badly limited, else a prefix of the window that ends exactly where a callback first says stop or throws, and all of it if none does, even if callbacks mutate the Store |
| MemoryStores.Subscription.Poll | src/esdb_store.cpp:860-901 | OK delivers the changes right after the cursor once and in order, as many as the callback's answers ask for, and moves the cursor past exactly those; any other result leaves it |
| MemoryStores.Subscribe | src/esdb_store.cpp:816-858 | a cursor must lie between floor and revision, with GAP and invalid decided exactly |
| Replicas.PollAndFold | src/esdb_store.cpp:860-901 | a poll of a real subscription, folded, is a step of the replica model |
| Replicas.RunKeepsInStep | src/esdb_store.cpp:171-255 | over every run the subscriber's view is the Store's view at its cursor and what it saw is the journal from its start to its cursor |
| Replicas.ReplicaConverges | src/esdb_store.cpp:137-255 | once the cursor reaches the revision the view equals the Store's own, every event having been seen exactly once in order |
| Replicas.FilteredReplicaConverges | extendscript/esdb.jsx:1502-1510 | the same for a subscriber that keeps one key |
| Replicas.GapIsForever | src/esdb_store.cpp:202-206 | a cursor below the floor never receives anything again |
| Replicas.QuietPollsCatchUp | src/esdb_store.cpp:860-901 | while nothing is written, polls with positive limits reach the revision |
| MemoryStores.MemoryStore.QueryChanges | src/esdb_store.cpp:184-218 | the checks of a change query decide GAP, invalid and served exactly; what is served is the whole window |
| FacadeSubscription.StoreSubscription.Poll | extendscript/esdb.jsx:1494-1521 | the poll loop, with handlers that write, poll the same subscription, close it or throw, ends in the state and with the result that `AfterPoll` gives, about which the next rows are |
| FacadeSubscription.PollReturns | extendscript/esdb.jsx:1494-1521 | a poll that does not throw returns exactly the wanted changes from its cursor as far as its limit goes and leaves the cursor there; it throws without calling a handler when it was closed or its query fails |
| FacadeSubscription.ExactlyOnceIff | extendscript/esdb.jsx:1479-1527 | over any life of a subscription, from any first cursor, every wanted change up to the cursor has been shown exactly once and in order iff no handler was called from within itself, none threw, and none was missing or closed away for a wanted change |
| FacadeSubscription.AtLeastOnce | extendscript/esdb.jsx:1479-1527 | over any life no wanted change up to the cursor is skipped, unless one was passed with no handler |
| FacadeSubscription.ReentrantPollGoesBack | extendscript/esdb.jsx:1494-1521 | a handler that polls while its caller has a window of two of three changes: the cursor reaches 3 and goes back to 2 |
| FacadeSubscription.ReentrantPollLosesItsPlace | extendscript/esdb.jsx:1494-1521 | so the next poll shows the third change a second time |
| FacadeSubscription.CloseInAHandlerDrops | extendscript/esdb.jsx:1494-1527 | a handler that closes: the rest of the window is returned and passed but shown to nobody |
| FacadeSubscription.UnheardLoop | extendscript/esdb.jsx:1501-1513 | without a handler changes are only returned, never shown |
| Paging.FirstKeys | src/esdb_store.cpp:712-735 | in-order iteration from upper_bound yields exactly the first keys above the cursor |
| Paging.PageUnique | src/esdb_store.cpp:689-756 | a page is determined by keys, cursor and limit |
| Paging.PagingIsMonotoneAndComplete | src/esdb_store.cpp:689-756 | with any mutations between pages the keys yielded ascend strictly and no key present throughout is passed over |
| Paging.PagingFinishes | src/esdb_store.cpp:689-756 | a short page means every key present throughout has been yielded |
| Paging.PagingUnchanged | src/esdb_store.cpp:689-756 | with no mutation the pages together are the whole map above the start, in order |
| Paging.PagingTerminates | src/esdb_store.cpp:689-756 | full pages of a fixed map are at most as many as its keys |
| Registry.InvAfter | src/esdb_store.cpp:271-343 | every step of open, close, subscribe, unsubscribe and destroy keeps counts exact and references registered, under any interleaving |
| Registry.CountsCoverLiveObjects | src/esdb_store.cpp:271-313 | over every run each count is at least the live handles or subscriptions, and equal when no call is in progress |
| Registry.OneStatePerName | src/esdb_store.cpp:271-284 | all live handles of one name share one state |
| Registry.DestroyIsSafe | src/esdb_store.cpp:325-343 | destroy never removes a state that still has a handle or subscription, although it reads the two counts one after the other |
| Registry.OpenHandsOut | src/esdb_store.cpp:271-300 | an open hands out the state registered under its own name, whatever other threads do between its steps |
| Registry.SubscribeHandsOut | src/esdb_store.cpp:816-858 | a subscription refers to the state of the handle it was made from |
| Registry.DestroyRemoves | src/esdb_store.cpp:325-343 | a destroy that reads no handles and then no subscriptions removes its name and no other; one that then reads a subscription removes nothing |
| Registry.DestroyRefused | src/esdb_store.cpp:325-343 | one that reads a handle removes nothing and gives the lock back |
| Sqlite.ValidSavepointName | src/esdb_runtime.cpp:293-323 | accepts exactly 1..64 characters [A-Za-z0-9_] outside the reserved prefix in any case |
| Sqlite.InternalIsReserved | src/esdb_runtime.cpp:306-322 | no public savepoint name equals the internal one as SQLite compares names |
| Sqlite.TopUserFrame | src/esdb_runtime.cpp:1504-1558 | SQLite finds the caller's true top savepoint under its name, past duplicates, case variants and leftover internal frames |
| Runtime.Database.Begin | src/esdb_runtime.cpp:1351-1405 | refused iff a transaction is open; OK opens one on the present content, and on failure nothing has begun |
| Runtime.Database.FinishTransaction | src/esdb_runtime.cpp:1407-1444 | an OK commit commits the present content whatever savepoints are open, an OK rollback brings back the committed content, and no savepoint is left; afterwards the flags agree with SQLite whatever happened |
| Runtime.Database.RunText | src/esdb_runtime.cpp:922-927 | statements run in order up to the first that fails, and what the earlier ones did stays done |
| Runtime.Database.Execute | src/esdb_runtime.cpp:922-940 | transaction control in a text of any number of statements, failing at any of them, leaves flags, active transaction and savepoints in agreement with SQLite |
| Runtime.Database.SavepointBegin | src/esdb_runtime.cpp:1470-1502 | pushes exactly one caller savepoint holding the present content, at most 64 deep |
| Runtime.Database.SavepointRelease | src/esdb_runtime.cpp:1504-1530 | accepted iff the name is the top one; pops exactly that one and keeps the content |
| Runtime.Database.SavepointRollback | src/esdb_runtime.cpp:1532-1558 | OK restores the content at the matching begin and pops exactly that savepoint; a failure after the first statement keeps it |
| Runtime.Database.BeginStoreMutation | src/esdb_object_store.cpp:202-226 | opens a transaction of its own or an internal savepoint in the caller's |
| Runtime.Database.RollbackStoreMutation | src/esdb_object_store.cpp:228-247 | undoes the scope under any stack of user savepoints and restores flags and depth; SQLite is exactly as before iff the scope had its own transaction or its RELEASE succeeded |
| Runtime.LeftoverOccurs | src/esdb_object_store.cpp:240-246 | otherwise it differs from before by the scope's own savepoint |
| Runtime.Database.CommitStoreMutation | src/esdb_object_store.cpp:249-276 | all the scope wrote becomes the caller's content, or none of it |
| Runtime.RestoredShowsNothing | src/esdb_object_store.cpp:240-246 | an internal savepoint left by a failed RELEASE changes neither content nor the caller's savepoints |
| ObjectTables.PutMeans | src/esdb_object_store.cpp:910-1048 | a complete put keeps revision metadata, AUTOINCREMENT sequence, journal, records and history in agreement, stores the value at the next revision, adds exactly its own journal row, and changes no other key of any store and no other table |
| ObjectTables.DeleteMeans | src/esdb_object_store.cpp:1108-1223 | the same for a complete delete: one record goes, one DELETE row is added, every other row stays |
| ObjectTables.PruneMeans | src/esdb_object_store.cpp:1517-1579 | pruning removes exactly the journal rows through a revision; records, revision and history stay |
| ObjectTables.EnsureKeepsConsistent | src/esdb_object_store.cpp:307-367 | registering a store adds exactly its name, under an id no store has, and keeps everything else as it was |
| ObjectTables.NothingIsNewerThanTheRevision | src/esdb_object_store.cpp:910-1048 | every live record is its key's latest PUT and nothing is newer than the durable revision |
| ObjectStore.ConsistencyIsKept | src/esdb_object_store.cpp:910-1048 | consistency is kept by every operation, so every content shown, committed or restorable has it |
| ObjectStore.OpenCreated | src/esdb_object_store.cpp:596-643 | freshly created tables are consistent, and from there every content the connection can show stays so |
| ObjectStore.GetStoreId | src/esdb_object_store.cpp:307-367 | registers on request and finds the id |
| ObjectStore.InsertChangeRow | src/esdb_object_store.cpp:369-442 | takes the next revision, and fails once 2^63 - 1 has been used |
| ObjectStore.ObjectPut | src/esdb_object_store.cpp:910-1048 | all or nothing with a failure at any statement, in its own transaction or nested; OK says what each table holds afterwards and whether it is committed |
| ObjectStore.ObjectDelete | src/esdb_object_store.cpp:1108-1223 | all or nothing likewise; deleting what is missing succeeds without a revision |
| ObjectStore.EnsureStore | src/esdb_object_store.cpp:879-908 | the store exists afterwards; an existing one is left alone |
| ObjectStore.PruneObjectChanges | src/esdb_object_store.cpp:1517-1579 | deletes and counts exactly the rows through the revision, or nothing |
| Connection.ObjectChangesSince | src/esdb_object_store.cpp:700-875 | delivers the rows of the store of that name, or of all stores, as they were at the moment of the query: in order, none up to the last one delivered left out and no other; it ends exactly where a callback first says stop or throws, or at the limit, or when there is no more |
| Durable.FoldWanted | src/esdb_object_store.cpp:700-875 | folding a delivery takes a consumer at or above the pruning mark from its cursor to any later revision, with or without a store filter |
| Durable.WantedAnswers | src/esdb_object_store.cpp:752-766 | the SELECT gives exactly the rows of the named store with a revision above the cursor, ascending |
| Durable.QueryIsCompleteIff | src/esdb_object_store.cpp:700-875 | a query of all stores gives every change after its cursor iff the cursor is the durable revision or the change right after it is still a row |
| Durable.FilteredQueryIsCompleteIff | src/esdb_object_store.cpp:700-875 | a query of one store does iff every change of that store after the cursor is still a row |
| Durable.PrunedChangeIsMissed | src/esdb_object_store.cpp:1517-1579 | put, prune and query from the beginning: nothing is delivered, although a change was made |
| Durable.ConsumerFollows | src/esdb_object_store.cpp:1634-1686 | over any polls of committed contents the consumer's view is the records' view at its cursor |
| Durable.CommittedHistoryGrows | src/esdb_object_store.cpp:249-276 | over every run of SQLite steps with nested rollbacks the committed history is append-only |
| Connection.Operate | src/esdb_object_store.cpp:879-1579 | every call on a connection, however it fails, keeps that chain and only extends the committed history |
| Durable.CallsOnlyGrow | src/esdb_object_store.cpp:249-276 | so over any sequence of such calls the durable revision never goes back |
| Connection.ObjectSubscription.Poll | src/esdb_object_store.cpp:1634-1686 | BUSY iff a poll is under way; OK moves the cursor past exactly what was delivered, which is what the query above says and a poll of the consumer's run; anything else leaves it |
| Connection.PollAndFold | src/esdb_object_store.cpp:1634-1686 | a poll of a real subscription, folded, is one more step of a run that `ConsumerFollows` is about, if nothing was pruned past the cursor |
| Durable.SavepointRemembers | src/esdb_runtime.cpp:1532-1558 | rolling back to a savepoint restores the content at its begin whatever happened above it |
| Migrations.PlanIsPath | src/esdb_runtime.cpp:1628-1677 | a run reaches its target only by exactly one first-matching step per version, in order |
| Migrations.PathIsPlan | src/esdb_runtime.cpp:1628-1677 | such a path determines where the run ends |
| Migrations.RunSteps | src/esdb_runtime.cpp:1628-1677 | the loop terminates at the target or stops for the plan's reason or a failed statement |
| Migrations.Migrate | src/esdb_runtime.cpp:1600-1683 | OK means the plan was followed and committed; anything else leaves schema and version unchanged |
| SchemaRace.InvAfter | src/esdb_object_store.cpp:562-656 | every step of racing initialisers and writers keeps the committed schema whole and what is pending explained |
| SchemaRace.SchemaIsWhole | src/esdb_object_store.cpp:562-656 | every committed state has 0 or 4 tables, created at most once, and no process ever sees a part |
| SchemaRace.RevisionIsNeverReset | src/esdb_object_store.cpp:596-643 | once there is a durable revision no initialiser resets it |
| SchemaRace.RevisionCountsWrites | src/esdb_object_store.cpp:562-656 | over every schedule the durable revision is the number of mutations that processes have committed |
| SchemaRace.InitialisesAlone | src/esdb_object_store.cpp:562-656 | a process that nobody interrupts gets the whole schema made, or finds it, and ends ready |
| Handles.DecodeEncode | adapters/externalobject/esdb_externalobject.cpp:114-132 | decoding inverts encoding inside the positive 32-bit integers, for any number of slot bits |
| Handles.EncodeDecode | adapters/externalobject/esdb_externalobject.cpp:120-132 | what decodes is the encoding of what it decodes to |
| Handles.SlotTable.Lookup | adapters/externalobject/esdb_externalobject.cpp:134-141 | a token resolves iff it was issued and not closed, and to its own database |
| Handles.SlotTable.Open | adapters/externalobject/esdb_externalobject.cpp:1262-1279 | puts the database into the first free slot under its generation and issues a token never issued before; none iff every slot is in use or retired |
| Handles.SlotTable.Advance | adapters/externalobject/esdb_externalobject.cpp:161-169 | frees a slot for its next generation, and retires it on its last instead of wrapping, so no closed token revives |
| Handles.SlotTable.Close | examples/orm/user/bridge/user_orm_bridge.cpp:115-132 | works exactly for a live token, once, frees or retires that slot and leaves every other as it is |
| Handles.SlotTable.Terminate | adapters/externalobject/esdb_externalobject.cpp:1095-1116 | closes every remaining token for good, each slot as a close would |
| Locks.InvAfter | adapters/externalobject/esdb_externalobject.cpp:143-159 | every step of calls, opens, closes and termination keeps each lock with the thread whose call says so |
| Locks.NeverClosedInUse | adapters/externalobject/esdb_externalobject.cpp:1298-1312 | over every interleaving a database in use is open, the same, and used by one call |
| Locks.SomebodyCanGoOn | adapters/externalobject/esdb_externalobject.cpp:143-159 | no deadlock: a call that cannot go on waits for one that can, or for the table's holder, who can or waits for the holder of the slot it asks for, who can |
| Locks.CallAlone | adapters/externalobject/esdb_externalobject.cpp:143-159 | a call that finds the locks free goes through, gives them back and does what it is for: an operation uses the database of the slot it names, open, close and terminate change exactly what they say |
| Utf8.ValidUtf8 | src/esdb_runtime.cpp:251-276 | accepts exactly the grammar in section 4 of RFC 3629 |
| Utf8.BridgeUtf8Valid | examples/orm/user/bridge/user_orm_wire.hpp:147-188 | accepts exactly the same grammar |
| Utf8.CodePointDecidesGrammar | src/esdb_runtime.cpp:251-276 | testing the decoded number and testing the second octet exclude the same characters |
| Utf16.DecodeEncode | extendscript/esdb.jsx:77-115 | every string without lone surrogates encodes to well-formed UTF-8 that decodes to it |
| Utf16.EncodeDecode | extendscript/esdb.jsx:150-220 | well-formed UTF-8 decodes to a string that encodes to it |
| Utf16.TextRoundTrip | extendscript/esdb.jsx:77-220 | text survives the hex transport unchanged |
| Utf16.HexTextRoundTrip | extendscript/esdb.jsx:77-220 | accepted hex comes back as itself in upper case |
| TextCodec.Utf8ToHex | extendscript/esdb.jsx:77-115 | rejects exactly strings with a lone surrogate and encodes the rest |
| TextCodec.HexBytes | extendscript/esdb.jsx:124-148 | accepts exactly even-length hex and decodes it |
| TextCodec.Utf8FromHex | extendscript/esdb.jsx:150-220 | accepts exactly hex of well-formed UTF-8 and decodes it |
| TextCodec.HexToUtf8 | examples/orm/user/generated/es3/user_repository.jsx:191-249 | the independent one-pass decoder accepts the same and gives the same text |
| Decimal.PrintIsCanonical | adapters/externalobject/esdb_externalobject.cpp:271-283 | printing gives a canonical decimal worth the number |
| Decimal.CanonicalIsPrinted | adapters/externalobject/esdb_externalobject.cpp:217-237 | a canonical decimal is what printing its value gives |
| Decimal.LengthThenText | extendscript/esdb.jsx:222-262 | comparing length and then text decides the numbers exactly, whatever their size |
| Integers.CanonicalDecimalSyntax | adapters/externalobject/esdb_externalobject.cpp:217-237 | accepts exactly the canonical syntax |
| Integers.ParseI64Decimal | adapters/externalobject/esdb_externalobject.cpp:239-252 | accepts exactly the canonical texts of 64-bit integers |
| Integers.ParseRevisionDecimal | adapters/externalobject/esdb_externalobject.cpp:254-269 | accepts exactly the canonical decimals up to 2^63 - 1 |
| Integers.ParseU32Decimal | adapters/externalobject/esdb_externalobject.cpp:519-530 | accepts exactly the canonical decimals up to 2^32 - 1 |
| Integers.ParseRevisionText | src/esdb_object_store.cpp:30-49 | accepts exactly the canonical decimals up to 2^63 - 1, no intermediate value leaving that range |
| Integers.BridgeCanonicalInt64 | examples/orm/user/bridge/user_orm_wire.hpp:99-138 | accepts the same texts as the adapter's parser |
| Integers.CanonicalUnsigned | extendscript/esdb.jsx:222-242 | accepts exactly canonical decimals up to the limit |
| Integers.CanonicalInt64 | extendscript/esdb.jsx:244-262 | accepts exactly signed decimals of the 64-bit range and gives their canonical text |
| Integers.Int64TextInRange | examples/orm/user/generated/es3/user_repository.jsx:251-263 | decides the 64-bit range for any digits, leading zeros included |
| Integers.Int64FromWire | examples/orm/user/generated/es3/user_repository.jsx:289-309 | number mode refuses exactly the integers outside the safe range |
| Integers.AppendLittleEndian | src/esdb_value.cpp:7-15 | the shift loop writes each octet of the value |
| Integers.ReadLittleEndian | src/esdb_value.cpp:17-27 | the accumulator loop reads the number of the octets |
| Integers.ReadsBack | src/esdb_value.cpp:7-27 | reading what was written gives the value |
| Integers.WritesBack | src/esdb_value.cpp:7-27 | writing what was read gives the octets |
| Integers.CreateInt64 | src/esdb_value.cpp:80-93 | the payload of an INT64 is its two's complement, little-endian |
| Integers.GetInt64 | src/esdb_value.cpp:180-185 | a type or size mismatch iff it is not such a payload; else the integer whose payload it is |
| Integers.PayloadDecides | src/esdb_value.cpp:80-93 | integers with equal payloads are equal |
| Integers.Int64Chain | extendscript/esdb.jsx:244-262 | facade text to integer to payload to integer to text is the identity |
| Lines.SplitJoin | extendscript/esdb.jsx:544-559 | pieces without the separator survive join and split |
| Lines.JoinSplitFrom | extendscript/esdb.jsx:579-600 | joining the pieces of any text gives the text back |
| ParameterPacket.EncodeQueryParameter | extendscript/esdb.jsx:512-542 | prints each parameter by its kind, refusing what has no wire form |
| ParameterPacket.QueryParameterPacket | extendscript/esdb.jsx:544-559 | the packet is the header and the printed parameters, refused iff one cannot be printed or there are more than 1024 |
| ParameterPacket.EntryRoundTrip | adapters/externalobject/esdb_externalobject.cpp:532-590 | a printed entry is read as the value meant |
| ParameterPacket.EntryIsItsParts | adapters/externalobject/esdb_externalobject.cpp:532-590 | nothing is accepted but "V1:", a type's own digit and a payload of that type |
| ParameterPacket.ParseQueryParameterWire | adapters/externalobject/esdb_externalobject.cpp:592-638 | accepts exactly packets with the declared number of entries and nothing but newlines after, and returns those entries |
| ParameterPacket.PacketRoundTrip | adapters/externalobject/esdb_externalobject.cpp:592-638 | every printable parameter list within the size limit is accepted as exactly the values meant |
| ParameterPacket.SendParameters | extendscript/esdb.jsx:544-559 | printer and parser together: exactly the values meant arrive, or nothing when one cannot be printed or the packet is over 8 MiB |
| PatchPacket.PatchWire | extendscript/esdb.jsx:1294-1341 | the facade's packet of a patch; refused iff it has more than 1024 entries, an empty key, a lone surrogate or a value without a lane |
| PatchPacket.ParsePatch | adapters/externalobject/esdb_externalobject.cpp:2540-2682 | accepts exactly packets with the declared number of well-formed entries and nothing but line breaks after |
| PatchPacket.AcceptedIsDivided | adapters/externalobject/esdb_externalobject.cpp:2590-2620 | a line is accepted only with three colons around a type and a lane of one character |
| PatchPacket.DividedIsMade | adapters/externalobject/esdb_externalobject.cpp:2590-2660 | and is read for exactly the parts between them |
| PatchPacket.PairSurvives | adapters/externalobject/esdb_externalobject.cpp:2590-2660 | a printed entry is cut at the same three colons and read as its key and value, or refused exactly when it cannot arrive |
| PatchPacket.ArrivesIff | adapters/externalobject/esdb_externalobject.cpp:347-356 | an entry cannot arrive iff its key encodes an octet 0 or its number cannot be read |
| PatchPacket.StoredAsBound | extendscript/esdb.jsx:462-509 | what can be bound as a SQL parameter is stored as the same value, but for numbers beyond 32 bits |
| PatchPacket.PatchRoundTrip | adapters/externalobject/esdb_externalobject.cpp:2540-2682 | a printed packet within the size limit is accepted with given pairs iff those are the entries meant, in order, and each can arrive |
| PatchPacket.SendPatch | extendscript/esdb.jsx:1294-1341 | printer and parser together: something arrives iff every entry is printable, the packet is at most 16 MiB, no key encodes an octet 0 and every number is read, and then it is exactly the entries meant |
| PatchPacket.NulKeyIsLost | adapters/externalobject/esdb_externalobject.cpp:347-356 | a patch with the key "a" U+0000 is printed, and accepted as nothing |
| QueryResult.QueryWireContext.SetColumnNames | adapters/externalobject/esdb_externalobject.cpp:670-692 | the names line, or nothing when it would not fit |
| QueryResult.QueryWireContext.AppendRow | adapters/externalobject/esdb_externalobject.cpp:713-762 | takes a row whole or refuses it because of the row limit or the byte limit |
| QueryResult.StepRows | src/esdb_runtime.cpp:1268-1305 | every row is counted, and a prefix of them taken |
| QueryResult.QuerySql | adapters/externalobject/esdb_externalobject.cpp:1551-1566 | the reply is the lines of a prefix of the rows, the flag iff rows are missing, within 16 MiB with its header, and no shorter than the limits force |
| QueryResult.ParseQueryResultWire | extendscript/esdb.jsx:579-663 | the parser loops compute the result that the lines say |
| QueryResult.ReplyIsRead | extendscript/esdb.jsx:579-663 | the facade recovers columns, rows and counts |
| QueryResult.QueryRoundTrip | adapters/externalobject/esdb_externalobject.cpp:1472-1566 | what the caller gets is a prefix of SQLite's rows, value by value the number, string or hex that the payload stands for, with exact counts; names are lost only if they could not be read early and no row came |
| QueryResult.Int64Arrives | src/esdb_value.cpp:180-185 | in it every 64-bit integer is handed out as its own canonical text |
| QueryResult.Int32Arrives | src/esdb_value.cpp:173-178 | and every 32-bit integer as that number |
| QueryResult.TextOfParsed | adapters/externalobject/esdb_externalobject.cpp:446-495 | the text of a value that the adapter accepts is the one it prints for it, but for the case of hex |
| QueryResult.ParsedText | adapters/externalobject/esdb_externalobject.cpp:532-590 | and every value it prints it takes back from that text |
| QueryResult.BoundAndSelected | extendscript/esdb.jsx:512-542 | a parameter that is bound and selected back is itself, a whole number beyond 32 bits having become an ESDB.Int64 |
| QueryResult.AcceptedResultFits | extendscript/esdb.jsx:579-663 | whatever reply the facade accepts is within its limits, its rows fit its columns and its values are ones a script can hold |
| RowsWire.PrintRows | examples/orm/user/bridge/user_orm_bridge.cpp:345-358 | the reply is the joined tokens of the rows |
| RowsWire.ReadRows | examples/orm/user/generated/es3/user_repository.jsx:373-408 | the cursor loop cuts exactly the declared rows and fields and nothing more |
| RowsWire.FieldsSurvive | examples/orm/user/generated/es3/user_repository.jsx:373-408 | a printed reply is taken apart into exactly its fields |
| RowsWire.AcceptedIsPrinted | examples/orm/user/generated/es3/user_repository.jsx:373-408 | no other text is accepted than one printed from the fields taken out of it |
| RowsWire.RowSaysItsFields | examples/orm/user/generated/es3/user_repository.jsx:462-500 | a decoded row says, column by column, what the hex of its fields says |
| RowsWire.DecodeRow | examples/orm/user/generated/es3/user_repository.jsx:462-500 | decodes the four columns of a user, or fails as the column types demand |
| RowsWire.RowsRoundTrip | examples/orm/user/bridge/user_orm_bridge.cpp:345-358 | exact mode gives the rows back, column by column the texts that encode to the same octets and the integers as text; number mode does, with the numbers, iff every integer is safe |

## Left out

- SQLite itself: WAL, busy timeouts, PRAGMA configuration, backup, integrity and health; read-only databases.
- SQLite rolling a transaction back by itself on statements other than COMMIT (disk full, I/O error), and ROLLBACK failing.
- Threads inside one connection: the write mutex and state mutex are taken as making each operation atomic; relaxed atomics of the Store registry are modelled as sequentially consistent.
- Concurrent parts (Registry, SchemaRace, Locks) are state machines on values rather than classes, since what matters there is the order of their atomic steps.
- Transaction objects are numbers, and their memory is not modelled; neither is the memory of handles, snapshots and reply strings.
- Timestamps on records, diagnostics, counters and last-error texts.
- Connection.ObjectChangesSince: a change is delivered with its store id instead of the store name that the JOIN adds, because ids and names correspond one to one; callbacks make any call but raw SQL and migrations.
- ObjectStore.OpenCreated: starts from the tables that the creation script leaves; the statements of the script are modelled in SchemaRace only.
- Connection.PollAndFold: pruning past the cursor of a consumer is excluded, since that is where changes are missed (`QueryIsCompleteIff`).
- Scanning and counting the durable ObjectStore: the in-memory scan is the harder of the two.
- SchemaRace.InvAfter: initialisation inside a caller's own transaction is not modelled, because the flag that follows it is assumed away above.
- Migrations.Migrate: callbacks are functions of the content, so savepoints they use inside are not visible; versions from 2^31 on are not modelled.
- Handles.SlotTable.Open: opening the file and the migration that the bridge runs first are parameters; a slot's transaction and repository are not modelled.
- Locks.SomebodyCanGoOn: a database operation is assumed to finish; fairness of the mutexes is not modelled.
- Texts of DOUBLE values, in both directions, are parameters; strtoul, strtol and strtod in the patch parser are parameters assumed only to read back canonical texts.
- QueryResult.ParseQueryResultWire: where the source applies Number() to a count or a type, only canonical decimals are accepted here; structured values that need the host's codec are refused.
- RowsWire.DecodeRow: only the columns of the user table; `r` and `b` fields, which it refuses, are not decoded.
- FacadeSubscription.StoreSubscription.Poll: the text of the change reply between adapter and facade is not modelled; the named Store is not destroyed while the subscription lives; a query that runs out of memory is an input, and a handler's write that fails is one it does not make.
- QueryResult.QueryWireContext.SetColumnNames: a null column name, which the source also refuses, cannot occur here.
- QueryResult.QueryWireContext.AppendRow: an exception while a row is built, which sets `failed` in the source, is the failing step of `StepRows`.
- The single-row reply, parameter decoding of the ORM bridge, and the V1 value and change replies of the adapter would add easy members.
- ExternalObject argument marshalling, JSON output, path handling, the ZIP VFS, the Drizzle adapter and the code generator.
