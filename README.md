# PFC-Notes in Dafny

PFC-Notes is a CosmWasm contract that works as a permissioned, two-level notes
registry. Notes are filed under a topic and a subtopic and addressed by a name.
An owner manages an allowlist of writers, and only writers may add or remove
notes, subtopic records and topic markers. Anyone may list writers, topics,
subtopics and the entries of a subtopic, one bounded page at a time, or fetch
a single note.

This project models the contract's core and proves properties about it. It
has five parts:

- **Keys and types** (`codec.dfy`, module `Codec`): the note type and its
  names, and the two composite keys with their unescaped string forms
  (`"{topic}/{sub_topic}:{name}"` and `"{topic}_{sub_topic}"`). It also holds
  the stored records and the messages of the three entry points. The
  decoders invert the encodings: a key round-trips when its components
  contain no separator, and the lemmas give concrete collisions when they do.
- **Storage** (`storage.dfy`, module `Storage`): the four tables (WRITER,
  TOPICSMAP, and the primary tables of `topic_subtopics()` and `notes()`),
  held as maps in one `State` value.
  - The two secondary indexes are derived from their tables (`IndexOf`,
    `Scope`) and never stored.
  - `Inv` says that every record is stored under the key built from its own
    fields.
- **Scans** (`order.dfy`, `pagination.dfy`, `scan.dfy`): the store's
  byte-lexicographic key order and a bounded range scan with an exclusive
  start bound. `Enumerate` and `ChainRows` model a client that pages through
  a listing, resuming from the last record of each page.
- **Queries** (`queries.dfy`, module `Queries`): the five query functions
  and the page-size clamp (default 10, at most 30).
- **Handlers and entry points** (`exec.dfy`, `contract.dfy`):
  - Each handler is a transition function from the old store to the new
    store or an error.
  - Class `Store` holds the same tables as fields. Its methods perform the
    saves and removes in place and are proved to land on the transition
    function's outcome; an error leaves the store as it was.
  - `Instantiate` is the writer-seeding loop.
  - `Step`/`Execute` dispatch messages behind the owner gate on writer
    management; `Query` dispatches queries.

`scenarios.dfy` replays the `writers` and `notes` tests of the contract's
test suite and states every outcome exactly. The third test,
`proper_initialization`, is covered by the contract of `Contract.Instantiate`
(owner recorded, no writers seeded from an empty list).

Removing an address that is not a writer succeeds. error.rs declares
`AddressDoesNotExist(String)`, and execute.rs:103-105 builds that error but
never returns it. The model follows the code (see Findings).

## Model

| member | source | states |
|---|---|---|
| Codec.NoteTypeToString | packages/pfc-notes/src/lib.rs:14-22 | the names "IPFS", "String" and "Json"; NoteTypeRoundTripIpfsString and NoteTypeJsonDoesNotRoundTrip state which of them parse back |
| Codec.NoteTypeFromStr | packages/pfc-notes/src/lib.rs:24-34 | exact, case-sensitive parsing of "IPFS", "JSON" and "String", anything else refused; NoteTypeFromStrAccepts states it in both directions |
| Codec.NoteTypeFromStrAccepts | packages/pfc-notes/src/lib.rs:24-34 | parsing succeeds exactly on "IPFS", "JSON" and "String", each giving its own note type, case-sensitively |
| Codec.NoteTypeRoundTripIpfsString | packages/pfc-notes/src/lib.rs:14-34 | for Ipfs and String, parsing the name `to_string` gives returns the same note type |
| Codec.NoteTypeJsonDoesNotRoundTrip | packages/pfc-notes/src/lib.rs:19-29 | Json is named "Json", and parsing that name fails |
| Codec.NoteTypeToStringIntended | packages/pfc-notes/src/lib.rs:14-22 | the corrected naming: every name it gives parses back to the same note type |
| Codec.NoteTypeIntendedRoundTrip | packages/pfc-notes/src/lib.rs:14-34 | with the corrected naming, parse(s) == t exactly when name(t) == s, in both directions |
| Codec.NoteKeyToString | packages/pfc-notes/src/lib.rs:42-46 | the unescaped "{topic}/{sub_topic}:{name}"; NoteKeyRoundTrip and NoteKeyInjectiveWithoutSeparators state when it can be decoded and is injective, NoteKeyNotInjective when it is not |
| Codec.SubTopicKeyToString | packages/pfc-notes/src/lib.rs:62-66 | the unescaped "{topic}_{sub_topic}"; SubTopicKeyRoundTrip and SubTopicKeyInjectiveWithoutSeparators state when it can be decoded and is injective, SubTopicKeyNotInjective when it is not |
| Codec.NoteKeyRoundTrip | packages/pfc-notes/src/lib.rs:42-46 | decoding the note key string gives back topic, subtopic and name when the topic has no '/' and the subtopic no ':' |
| Codec.SubTopicKeyRoundTrip | packages/pfc-notes/src/lib.rs:62-66 | decoding the subtopic key string gives back topic and subtopic when the topic has no '_' |
| Codec.NoteKeyInjectiveWithoutSeparators | packages/pfc-notes/src/lib.rs:42-46 | under the same separator restriction, two note keys share a string exactly when they are equal |
| Codec.SubTopicKeyInjectiveWithoutSeparators | packages/pfc-notes/src/lib.rs:62-66 | with topics free of '_', two subtopic keys share a string exactly when they are equal |
| Codec.SubTopicKeyNotInjective | packages/pfc-notes/src/lib.rs:64 | ("a_b","c") and ("a","b_c") are different keys with the same string |
| Codec.NoteKeyNotInjective | packages/pfc-notes/src/lib.rs:44 | ("a/b","c","d") and ("a","b/c","d") are different keys with the same string |
| Codec.NoteKeyOrderFollowsName | packages/pfc-notes/src/lib.rs:44 | for a fixed topic and subtopic, note key strings are ordered exactly as the names are |
| Codec.SubTopicKeyOrderFollowsSubTopic | packages/pfc-notes/src/lib.rs:64 | for a fixed topic, subtopic key strings are ordered exactly as the subtopics are |
| Storage.NamespacesDistinct | contracts/pfc-notes-contract/src/state.rs:6-11 | the six storage namespaces are pairwise distinct |
| Storage.TopicSubtopicIdx | contracts/pfc-notes-contract/src/state.rs:15-17 | a subtopic record is indexed by its topic; IndexMembers and Scope state which rows a prefix scan under a topic visits |
| Storage.NoteIdx | contracts/pfc-notes-contract/src/state.rs:39-41 | a note is indexed by "{topic}/{sub_topic}"; NoteKeyExtendsIndex states that this value is a proper prefix of the note's own key |
| Storage.NoteKeyExtendsIndex | contracts/pfc-notes-contract/src/state.rs:39-41 | a note's index value "{topic}/{sub_topic}" is a proper prefix of its primary key, which is that value, then ":" and the name |
| Storage.IndexMembers | contracts/pfc-notes-contract/src/state.rs:30-37 | an index holds the pair (v, k) exactly when k is a row of the table whose index value is v |
| Storage.Scope | contracts/pfc-notes-contract/src/state.rs:54-61 | the keys under one index value are exactly the rows whose index value it is |
| Storage.IndexAfterSave | contracts/pfc-notes-contract/src/state.rs:30-61 | saving over a key replaces that key's old index pair with the new one, and touches no other pair |
| Storage.IndexAfterRemove | contracts/pfc-notes-contract/src/state.rs:30-61 | removing a key drops its index pair and nothing else |
| Order.LessPrefixCancel | contracts/pfc-notes-contract/src/query.rs:47 | under the store's ascending key order, strings with a common prefix compare as their remainders do |
| Pagination.PageProperties | contracts/pfc-notes-contract/src/query.rs:43-50 | a page has min(reachable, limit) keys, all in the table and strictly after the start, strictly ascending, and no reachable key it omits comes before any key in it |
| Pagination.EnumerateAll | contracts/pfc-notes-contract/src/query.rs:43-50 | resuming each page from its last key enumerates exactly the reachable keys, in ascending order |
| Pagination.EnumerateWhole | contracts/pfc-notes-contract/src/query.rs:43-50 | from no cursor, chained pages list every key once, strictly ascending |
| Scan.PageRecordsFound | contracts/pfc-notes-contract/src/query.rs:72-79 | each record of a page is stored under the key its cursor names, which is in scope and after the start |
| Scan.PageRecordsOrdered | contracts/pfc-notes-contract/src/query.rs:72-79 | the records of a page come in strictly ascending cursor order |
| Scan.PageRecordsComplete | contracts/pfc-notes-contract/src/query.rs:72-79 | a reachable record missing from a page comes after every record in it |
| Scan.ChainRowsAll | contracts/pfc-notes-contract/src/query.rs:72-79 | chaining pages from the last record's cursor returns the records of the whole ascending scan |
| Scan.ChainRowsMembers | contracts/pfc-notes-contract/src/query.rs:72-79 | from no cursor, the chain returns exactly the records in scope, once per key |
| Scan.ChainRowsOrdered | contracts/pfc-notes-contract/src/query.rs:72-79 | from no cursor, the chained records strictly ascend in cursor order |
| Queries.PageSize | contracts/pfc-notes-contract/src/query.rs:7-15 | the page size is the limit (10 when absent), capped at 30 |
| Queries.QueryWriter | contracts/pfc-notes-contract/src/query.rs:10-35 | fails exactly when the start address is invalid, with InvalidAddress; otherwise returns at most a page-size of rows |
| Queries.QueryWriterPage | contracts/pfc-notes-contract/src/query.rs:16-33 | the page holds min(writers after the start, page size) rows, each a registered writer with its name, strictly after the start, ascending by address, skipping none |
| Queries.QueryTopics | contracts/pfc-notes-contract/src/query.rs:37-52 | a page of min(topics after the start, page size) TOPICSMAP keys, strictly after the start, strictly ascending and skipping none |
| Queries.TopicPagesResume | contracts/pfc-notes-contract/src/query.rs:43-50 | a topics page followed by the listing resumed from its last topic is the whole listing, for any limit including the default of 10 |
| Queries.TopicListingComplete | contracts/pfc-notes-contract/src/query.rs:43-50 | paging through topics from the start lists exactly the stored topics, strictly ascending |
| Queries.QuerySubTopics | contracts/pfc-notes-contract/src/query.rs:54-81 | a page holds min(subtopic records of the topic after the start, page size) records, so a short page means the listing is exhausted |
| Queries.SubTopicCursor | contracts/pfc-notes-contract/src/query.rs:61-69 | the exclusive bound "{topic}_{start_after}", or none; SubTopicCursorOrder states that these bounds order as the subtopic names |
| Queries.SubTopicCursorsAreKeys | contracts/pfc-notes-contract/src/execute.rs:40 | in a consistent store, each subtopic record's resume cursor is its own key |
| Queries.SubTopicCursorOrder | contracts/pfc-notes-contract/src/query.rs:61-66 | for a fixed topic, resume cursors are ordered as the subtopics are |
| Queries.QuerySubTopicsFound | contracts/pfc-notes-contract/src/query.rs:71-79 | every returned record has the requested topic, is stored under its own key and has a subtopic after the start |
| Queries.QuerySubTopicsOrdered | contracts/pfc-notes-contract/src/query.rs:71-79 | returned records strictly ascend by subtopic |
| Queries.QuerySubTopicsComplete | contracts/pfc-notes-contract/src/query.rs:71-79 | a record of the topic after the start that is not returned comes after every returned record |
| Queries.SubTopicPagesResume | contracts/pfc-notes-contract/src/query.rs:61-79 | a subtopics page followed by the listing resumed from its last subtopic is the whole listing, for any limit including the default of 10 |
| Queries.SubTopicListingMembers | contracts/pfc-notes-contract/src/query.rs:61-79 | paging through a topic lists exactly its subtopic records |
| Queries.SubTopicListingOrdered | contracts/pfc-notes-contract/src/query.rs:61-79 | the full subtopic listing strictly ascends by subtopic |
| Queries.QueryEntries | contracts/pfc-notes-contract/src/query.rs:83-112 | as written: scans the note index under "{topic}_{sub_topic}" and returns min(notes indexed under that value after the start, page size) entries |
| Queries.SeparatorsDiffer | contracts/pfc-notes-contract/src/query.rs:106 | the prefix the query reads, "t_s", never equals the index value "t/a" the notes are written under |
| Queries.QueryEntriesMissesOwnNotes | contracts/pfc-notes-contract/src/query.rs:103-110 | as written, no returned entry has the requested topic and subtopic |
| Queries.QueryEntriesIntended | contracts/pfc-notes-contract/src/query.rs:83-112 | the corrected scan, under "{topic}/{sub_topic}", returns min(notes of the pair after the start, page size) entries |
| Queries.QueryEntriesIntendedFound | contracts/pfc-notes-contract/src/query.rs:92-110 | every returned entry is indexed under the requested pair, is what `query_note` returns for its name, and comes after the start |
| Queries.QueryEntriesIntendedOrdered | contracts/pfc-notes-contract/src/query.rs:92-110 | returned entries strictly ascend by name |
| Queries.QueryEntriesIntendedComplete | contracts/pfc-notes-contract/src/query.rs:92-110 | an entry of the pair after the start that is not returned comes after every returned entry |
| Queries.EntryCursor | contracts/pfc-notes-contract/src/query.rs:92-101 | the exclusive bound "{topic}/{sub_topic}:{start_after}", or none; EntryCursorOrder states that these bounds order as the note names |
| Queries.EntryCursorsAreKeys | contracts/pfc-notes-contract/src/execute.rs:41 | in a consistent store, each note's resume cursor is its own key |
| Queries.EntryCursorOrder | contracts/pfc-notes-contract/src/query.rs:92-98 | for a fixed topic and subtopic, resume cursors are ordered as the names are |
| Queries.EntryPagesResume | contracts/pfc-notes-contract/src/query.rs:92-110 | an entries page followed by the listing resumed from its last name is the whole listing, for any limit including the default of 10 |
| Queries.EntryListingMembers | contracts/pfc-notes-contract/src/query.rs:92-110 | paging through a subtopic lists exactly the notes indexed under it |
| Queries.EntryListingOrdered | contracts/pfc-notes-contract/src/query.rs:92-110 | the full entries listing strictly ascends by name |
| Queries.QueryNote | contracts/pfc-notes-contract/src/query.rs:114-126 | succeeds exactly when "{topic}/{sub_topic}:{name}" is stored, returning the row stored there; otherwise NotFound |
| Queries.QueryNoteMatchesRequest | contracts/pfc-notes-contract/src/query.rs:114-126 | in a consistent store, the returned note's own key string is the requested one, and with separator-free components its fields are the requested ones |
| Exec.AssertIsWriter | contracts/pfc-notes-contract/src/execute.rs:8-11 | passes exactly for addresses in WRITER; otherwise NotFound |
| Exec.ExecAddNote | contracts/pfc-notes-contract/src/execute.rs:12-43 | fails with NotFound exactly for non-writers; on success owner and writers are unchanged, and each of TOPICSMAP, the subtopic table and the note table gains exactly its one written key (topic to itself, "{topic}_{sub_topic}" to the subtopic record, "{topic}/{sub_topic}:{name}" to the entry stamped with the sender), every other row keeping its value |
| Exec.ExecRmNote | contracts/pfc-notes-contract/src/execute.rs:45-64 | fails with NotFound exactly for a non-writer or a missing note; otherwise removes only that note and keeps the other tables |
| Exec.ExecRmSubTopic | contracts/pfc-notes-contract/src/execute.rs:65-81 | fails exactly for non-writers; otherwise removes only that subtopic key, present or not, and keeps notes and topics |
| Exec.ExecRmTopic | contracts/pfc-notes-contract/src/execute.rs:82-87 | fails exactly for non-writers; otherwise removes only that topic key and keeps subtopics and notes |
| Exec.ExecAddWriter | contracts/pfc-notes-contract/src/execute.rs:89-98 | fails with InvalidAddress exactly for invalid addresses; otherwise upserts the address with its name and changes nothing else |
| Exec.ExecRmWriter | contracts/pfc-notes-contract/src/execute.rs:100-108 | as written: fails only for an invalid address; otherwise removes the address whether or not it was a writer |
| Exec.ExecRmWriterChecked | contracts/pfc-notes-contract/src/execute.rs:100-108 | corrected: also fails, with AddressDoesNotExist, when the address is not a writer |
| Exec.AddNoteThenQueryNote | contracts/pfc-notes-contract/src/execute.rs:31-41 | after a writer adds a note, `query_note` returns exactly that entry, with TOPICSMAP[t] = t and the subtopic record set |
| Exec.AddNoteUpsert | contracts/pfc-notes-contract/src/execute.rs:39-41 | adding the same topic, subtopic and name twice gives the same store as adding only the second note |
| Exec.AddNotePreservesInv | contracts/pfc-notes-contract/src/execute.rs:39-41 | adding a note keeps a consistent store consistent |
| Exec.AddNoteRescopes | contracts/pfc-notes-contract/src/execute.rs:40-41 | adding moves the note key into scope "{topic}/{sub_topic}" and the subtopic key into its topic's scope, out of any scope they had |
| Exec.AddedNoteMissedByQueryEntries | contracts/pfc-notes-contract/src/query.rs:106 | as written, a note just added is never listed by `query_entries` for its own topic and subtopic |
| Exec.AddedNoteListedByIntendedEntries | contracts/pfc-notes-contract/src/execute.rs:41 | the corrected listing, paged through from the start, contains a note just added |
| Exec.RmNoteThenQueryNote | contracts/pfc-notes-contract/src/execute.rs:59-61 | after a removal the note is NotFound, and every note under another key is unchanged |
| Exec.RemovalsPreserveInv | contracts/pfc-notes-contract/src/execute.rs:45-87 | the three removals keep a consistent store consistent |
| Exec.RmSubTopicKeepsNotes | contracts/pfc-notes-contract/src/execute.rs:65-81 | removing a subtopic does not cascade: every note and every corrected entries listing is unchanged |
| Exec.RmTopicKeepsSubTopics | contracts/pfc-notes-contract/src/execute.rs:82-87 | removing a topic does not cascade: its subtopics are still listed, but the topic is not |
| Exec.AddWriterOpensGate | contracts/pfc-notes-contract/src/execute.rs:89-98 | an added writer passes the gate and can add notes |
| Exec.RmWriterClosesGate | contracts/pfc-notes-contract/src/execute.rs:100-108 | a removed writer fails the gate and its notes are refused with NotFound |
| Exec.RmWriterIgnoresMissing | contracts/pfc-notes-contract/src/execute.rs:103-106 | as written, removing a valid non-writer succeeds and leaves the store unchanged |
| Exec.RmWriterCheckedReports | contracts/pfc-notes-contract/src/execute.rs:103-106 | the corrected removal reports a missing writer, and otherwise agrees with the written one |
| Exec.Store.constructor | contracts/pfc-notes-contract/src/state.rs:63-67 | a new store has the owner and empty tables, and is consistent |
| Exec.Store.AddNote | contracts/pfc-notes-contract/src/execute.rs:12-43 | the in-place saves give exactly the outcome of `ExecAddNote`, and keep consistency |
| Exec.Store.RmNote | contracts/pfc-notes-contract/src/execute.rs:45-64 | the in-place removal gives exactly the outcome of `ExecRmNote`, and keeps consistency |
| Exec.Store.RmSubTopic | contracts/pfc-notes-contract/src/execute.rs:65-81 | the in-place removal gives exactly the outcome of `ExecRmSubTopic`, and keeps consistency |
| Exec.Store.RmTopic | contracts/pfc-notes-contract/src/execute.rs:82-87 | the in-place removal gives exactly the outcome of `ExecRmTopic`, and keeps consistency |
| Exec.Store.AddWriter | contracts/pfc-notes-contract/src/execute.rs:89-98 | the in-place save gives exactly the outcome of `ExecAddWriter` |
| Exec.Store.RmWriter | contracts/pfc-notes-contract/src/execute.rs:100-108 | the in-place removal gives exactly the outcome of `ExecRmWriter` |
| Contract.WritersFrom | contracts/pfc-notes-contract/src/lib.rs:36-39 | WRITER after saving each listed writer in turn; WritersFromKeys states its keys are exactly the listed addresses and WritersFromLastWins that a repeated address keeps its last name |
| Contract.WritersFromKeys | contracts/pfc-notes-contract/src/lib.rs:36-39 | after seeding, exactly the listed addresses are writers |
| Contract.WritersFromLastWins | contracts/pfc-notes-contract/src/lib.rs:36-39 | each address gets the name of its last occurrence in the list |
| Contract.Instantiate | contracts/pfc-notes-contract/src/lib.rs:28-41 | fails exactly when the owner or some writer address is invalid: an invalid owner is reported first, otherwise the first invalid writer; on success a fresh, consistent store holds the owner, the seeded writers and empty tables |
| Contract.AssertOwner | contracts/pfc-notes-contract/src/lib.rs:59-65 | passes exactly for the owner; otherwise NotOwner |
| Contract.Step | contracts/pfc-notes-contract/src/lib.rs:44-88 | writer management by a non-owner fails with NotOwner; note messages from a non-writer fail with NotFound; no message changes the owner |
| Contract.StepPreservesInv | contracts/pfc-notes-contract/src/lib.rs:44-88 | every message keeps a consistent store consistent |
| Contract.OwnerIsNotAWriter | contracts/pfc-notes-contract/src/lib.rs:68-74 | note messages are not owner-gated: an owner missing from the allowlist is refused |
| Contract.OwnerManagesWriters | contracts/pfc-notes-contract/src/lib.rs:55-74 | the owner adding an address lets it add notes; the owner removing it stops it |
| Contract.Execute | contracts/pfc-notes-contract/src/lib.rs:44-88 | the in-place dispatch gives exactly the response and store of `Step` |
| Contract.Query | contracts/pfc-notes-contract/src/lib.rs:91-121 | each query gets its own kind of response, with at most 30 rows; only an invalid writers cursor or a missing note fails |
| Scenarios.SeededByInstantiate | contracts/pfc-notes-contract/src/testing/tests.rs:62-80 | seeding "pie" then "latte" gives the two writers with their names |
| Scenarios.WritersListed | contracts/pfc-notes-contract/src/testing/tests.rs:81-96 | listing the writers gives exactly [latte, pie] |
| Scenarios.WritersAfterLatte | contracts/pfc-notes-contract/src/testing/tests.rs:97-106 | starting after "latte" gives exactly [pie] |
| Scenarios.WritersAfterRemoval | contracts/pfc-notes-contract/src/testing/tests.rs:108-114 | after "pie" is removed, exactly [latte] |
| Scenarios.WritersAfterAdding | contracts/pfc-notes-contract/src/testing/tests.rs:115-128 | after "bread" is added, exactly [bread, latte] |
| Scenarios.StrangerIsRefused | contracts/pfc-notes-contract/src/testing/tests.rs:156-198 | "nope" can neither add nor remove a note: NotFound both times |
| Scenarios.NotesAdded | contracts/pfc-notes-contract/src/testing/tests.rs:200-272 | the four additions reach exactly the stated stores |
| Scenarios.FirstNoteFound | contracts/pfc-notes-contract/src/testing/tests.rs:210-242 | the first note is found under its own names; a wrong name or subtopic gives NotFound |
| Scenarios.TopicsListed | contracts/pfc-notes-contract/src/testing/tests.rs:273-274 | the topics are exactly ["topic", "topic2"] |
| Scenarios.TopicsAfterTopic | contracts/pfc-notes-contract/src/testing/tests.rs:275-276 | after "topic", exactly ["topic2"] |
| Scenarios.TopicsAfterTopic2 | contracts/pfc-notes-contract/src/testing/tests.rs:277-278 | after "topic2", nothing |
| Scenarios.SubTopicsListed | contracts/pfc-notes-contract/src/testing/tests.rs:279-281 | under "topic", exactly "sub" then "sub2" |
| Scenarios.SubTopicsOfTopic2 | contracts/pfc-notes-contract/src/testing/tests.rs:282-283 | under "topic2", exactly "sub" |
| Scenarios.SubTopicsAfterSub | contracts/pfc-notes-contract/src/testing/tests.rs:284-285 | under "topic" after "sub", exactly "sub2" |
| Scenarios.EntriesScenarioAsWritten | contracts/pfc-notes-contract/src/query.rs:102-111 | in that store, the first note is found by `query_note`, yet `query_entries("topic","sub")` is empty |
| Scenarios.EntriesScenarioIntended | contracts/pfc-notes-contract/src/query.rs:102-111 | the corrected listing of ("topic","sub") is exactly [first note] |

## Left out

- Ownership beyond a plain owner field: transfer, acceptance, renunciation and expiry (`UpdateOwnership`), and the pending owner the ownership query reports. These belong to an external library.
- Contract version metadata (`cw2::set_contract_version`). It stores metadata and has no logic.
- Address validation (`addr_validate`). It is a host call, so it is the parameter `isValid: string -> bool`, and addresses are strings.
- Serialisation of responses (`to_binary`) and the message schema. `Contract.Query` returns the response value before encoding.
- The byte layout of storage keys: length-prefixed namespaces and multi-index key bytes. Tables are maps ordered byte-lexicographically, and indexes are derived sets of pairs.
- Storage-layer failures (a record that does not deserialise) and host transaction rollback. Rollback shows up as `Commit`, which leaves the store unchanged on every error.
- Page limits are 32-bit unsigned (`U32`). The size conversion cannot overflow, so no wrap-around is modelled.
- The queries are ghost functions, because the ascending enumeration of a key set is defined by choosing its least element. They are specifications, not executable code.
- Queries.QuerySubTopics: its own contract states the exact page size. What the source promises about membership, order and completeness is stated by the lemmas beside it (QuerySubTopicsFound, QuerySubTopicsOrdered, QuerySubTopicsComplete).
- Queries.QueryEntriesIntended: its own contract states the exact page size. Its other properties are in QueryEntriesIntendedFound, QueryEntriesIntendedOrdered and QueryEntriesIntendedComplete.
- Contract.Query: its contract states the response kind and bound. The rows in each response are described by the query lemmas. The ownership response carries only the owner.
- The `AddressDoesNotExist` error of `error.rs` is only mirrored as a constructor. The contract never returns it, and only the corrected `Exec.ExecRmWriterChecked` uses it.

## Findings

| source | as written | input that shows it | evidently intended | confidence | as-written member | corrected member |
|---|---|---|---|---|---|---|
| contracts/pfc-notes-contract/src/query.rs:106 | `query_entries` scans the note index under "{topic}_{sub_topic}", but notes are indexed under "{topic}/{sub_topic}" (state.rs:40) | add note ("topic","sub","name"), then `query_entries("topic","sub")`: empty, although `query_note` finds the note | scan under "{topic}/{sub_topic}", listing every note of the pair in name order | high (not executed) | Scenarios.EntriesScenarioAsWritten | Queries.EntryListingMembers |
| packages/pfc-notes/src/lib.rs:19 | `NoteType::Json` is named "Json", while `from_str` accepts only "JSON" (line 29) | `from_str(Json.to_string())` fails | name Json "JSON", so parsing inverts naming for every note type | high (not executed) | Codec.NoteTypeJsonDoesNotRoundTrip | Codec.NoteTypeToStringIntended |
| contracts/pfc-notes-contract/src/execute.rs:103-105 | the existence lookup's result is discarded, so removing an address that is not a writer succeeds | `exec_rm_writer("ghost")` on a store without "ghost": Ok, nothing changed | fail with `AddressDoesNotExist(address)` | medium (not executed) | Exec.RmWriterIgnoresMissing | Exec.ExecRmWriterChecked |
