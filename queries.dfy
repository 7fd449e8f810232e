/**
  The read-only queries (contracts/pfc-notes-contract/src/query.rs). Each is a
  range scan over a table or an index prefix, with an exclusive start bound,
  cut to a clamped page size and mapped to records.
*/
module Queries {
  import opened Wrappers
  import opened Errors
  import opened Order
  import opened Codec
  import opened Storage
  import opened Pagination
  import opened Scan

  const DEFAULT_LIMIT: nat := 10
  const MAX_LIMIT: nat := 30

  /** `limit.unwrap_or(DEFAULT_LIMIT).min(MAX_LIMIT)`. */
  function PageSize(limit: Option<U32>): (n: nat)
    ensures n <= MAX_LIMIT
    ensures limit.None? ==> n == DEFAULT_LIMIT
    ensures limit.Some? && limit.value >= MAX_LIMIT ==> n == MAX_LIMIT
    ensures limit.Some? && limit.value < MAX_LIMIT ==> n == limit.value
  {
    var requested := if limit.Some? then limit.value else DEFAULT_LIMIT;
    if requested < MAX_LIMIT then requested else MAX_LIMIT
  }

  /** `query_writer`: a page of (address, name) rows after a validated start address. */
  ghost function QueryWriter(st: State, startAfter: Option<string>, limit: Option<U32>, isValid: string -> bool)
    : (r: Result<seq<NoteWriter>, StdError>)
    ensures r.Err? <==> startAfter.Some? && !isValid(startAfter.value)
    ensures r.Err? ==> r.error == InvalidAddress(startAfter.value)
    ensures r.Ok? ==> |r.value| <= PageSize(limit)
  {
    if startAfter.Some? && !isValid(startAfter.value) then Err(InvalidAddress(startAfter.value))
    else
      var ks := Page(st.writers.Keys, startAfter, PageSize(limit));
      PageBounds(st.writers.Keys, startAfter, PageSize(limit));
      Ok(seq(|ks|, i requires 0 <= i < |ks| => NoteWriter(ks[i], st.writers[ks[i]])))
  }

  /**
    A writers page holds registered writers with their names, strictly after
    the start address, in ascending address order, skipping none.
  */
  lemma QueryWriterPage(st: State, startAfter: Option<string>, limit: Option<U32>, isValid: string -> bool)
    ensures var r := QueryWriter(st, startAfter, limit, isValid);
      && (r.Ok? ==> |r.value| == (if |Eligible(st.writers.Keys, startAfter)| < PageSize(limit)
                                  then |Eligible(st.writers.Keys, startAfter)| else PageSize(limit)))
      && (r.Ok? ==> forall i :: 0 <= i < |r.value| ==>
            && r.value[i].address in st.writers
            && st.writers[r.value[i].address] == r.value[i].name
            && After(startAfter, r.value[i].address))
      && (r.Ok? ==> forall i, j :: 0 <= i < j < |r.value| ==> Less(r.value[i].address, r.value[j].address))
      && (r.Ok? ==> forall a, i ::
            && a in st.writers && After(startAfter, a) && 0 <= i < |r.value|
            && (forall j :: 0 <= j < |r.value| ==> r.value[j].address != a)
            ==> Less(r.value[i].address, a))
  {
    var r := QueryWriter(st, startAfter, limit, isValid);
    if r.Ok? {
      var ks := Page(st.writers.Keys, startAfter, PageSize(limit));
      PageProperties(st.writers.Keys, startAfter, PageSize(limit));
      var rows := r.value;
      assert |rows| == |ks| && forall j :: 0 <= j < |ks| ==> rows[j] == NoteWriter(ks[j], st.writers[ks[j]]);
      forall a, i | && a in st.writers && After(startAfter, a) && 0 <= i < |rows|
                    && (forall j :: 0 <= j < |rows| ==> rows[j].address != a)
        ensures Less(rows[i].address, a)
      {
        assert a !in ks by {
          forall j | 0 <= j < |ks| ensures ks[j] != a {
            assert rows[j].address == ks[j];
          }
        }
      }
    }
  }

  /** `query_topics`: topic keys strictly after `startAfter`, skipping none. */
  ghost function QueryTopics(st: State, startAfter: Option<string>, limit: Option<U32>): (r: seq<string>)
    ensures |r| == (if |Eligible(st.topics.Keys, startAfter)| < PageSize(limit)
                    then |Eligible(st.topics.Keys, startAfter)| else PageSize(limit))
    ensures StrictlyAscending(r)
    ensures forall i :: 0 <= i < |r| ==> r[i] in st.topics && After(startAfter, r[i])
    ensures forall k, i :: k in st.topics && After(startAfter, k) && k !in r && 0 <= i < |r| ==> Less(r[i], k)
  {
    PageProperties(st.topics.Keys, startAfter, PageSize(limit));
    Page(st.topics.Keys, startAfter, PageSize(limit))
  }

  /** Each step of a client's chain over topics is one `query_topics` call, resumed after the last topic returned. */
  lemma TopicPagesResume(st: State, startAfter: Option<string>, limit: Option<U32>)
    requires PageSize(limit) > 0
    ensures var p := QueryTopics(st, startAfter, limit);
      && (p == [] ==> Enumerate(st.topics.Keys, startAfter, PageSize(limit)) == [])
      && (p != [] ==> Enumerate(st.topics.Keys, startAfter, PageSize(limit))
                      == p + Enumerate(st.topics.Keys, Some(p[|p| - 1]), PageSize(limit)))
  {
    EnumerateStep(st.topics.Keys, startAfter, PageSize(limit));
  }

  /** From no cursor, chained topic pages list every topic once, in ascending order. */
  lemma TopicListingComplete(st: State, limit: Option<U32>)
    requires PageSize(limit) > 0
    ensures var all := Enumerate(st.topics.Keys, None, PageSize(limit));
      && (forall t :: t in all <==> t in st.topics)
      && StrictlyAscending(all)
  {
    EnumerateWhole(st.topics.Keys, PageSize(limit));
  }

  // ---------------------------------------------------------------------------
  // Subtopics: scanned through the by-topic index

  /** The subtopic keys the by-topic index holds under `topic`. */
  ghost function SubTopicScope(st: State, topic: string): set<string>
  {
    Scope(st.subTopics, TopicSubtopicIdx, topic)
  }

  /** The exclusive bound `query_sub_topics` builds from a subtopic name. */
  function SubTopicCursor(topic: string, startAfter: Option<string>): Option<string>
  {
    match startAfter
    case None => None
    case Some(sub) => Some(SubTopicKeyToString(SubTopicKey(topic, sub)))
  }

  /** `query_sub_topics`: the records under `topic`, strictly after "{topic}_{startAfter}". */
  ghost function QuerySubTopics(st: State, topic: string, startAfter: Option<string>, limit: Option<U32>)
    : (r: seq<SubTopicKey>)
    ensures |r| == (if |Eligible(SubTopicScope(st, topic), SubTopicCursor(topic, startAfter))| < PageSize(limit)
                    then |Eligible(SubTopicScope(st, topic), SubTopicCursor(topic, startAfter))| else PageSize(limit))
  {
    var ks := Page(SubTopicScope(st, topic), SubTopicCursor(topic, startAfter), PageSize(limit));
    PageProperties(SubTopicScope(st, topic), SubTopicCursor(topic, startAfter), PageSize(limit));
    Rows(st.subTopics, ks)
  }

  /** The cursor a client resumes from after a subtopic record: `start_after` set to its subtopic. */
  function SubTopicResumeCursor(topic: string): SubTopicKey -> Option<string>
  {
    (v: SubTopicKey) => SubTopicCursor(topic, Some(v.subTopic))
  }

  /** Every subtopic record of the topic is found again from the cursor its subtopic gives. */
  ghost predicate SubTopicsKeyed(st: State, topic: string)
  {
    CursorsAreKeys(st.subTopics, SubTopicScope(st, topic), SubTopicResumeCursor(topic))
  }

  /** A consistent store is keyed for every topic. */
  lemma SubTopicCursorsAreKeys(st: State, topic: string)
    requires Inv(st)
    ensures SubTopicsKeyed(st, topic)
  {
  }

  /** Under one topic, the cursors of two subtopic records are ordered as their subtopics. */
  lemma SubTopicCursorOrder(topic: string, a: SubTopicKey, b: SubTopicKey)
    ensures SubTopicResumeCursor(topic)(a).Some? && SubTopicResumeCursor(topic)(b).Some?
    ensures Less(SubTopicResumeCursor(topic)(a).value, SubTopicResumeCursor(topic)(b).value) <==> Less(a.subTopic, b.subTopic)
  {
    SubTopicKeyOrderFollowsSubTopic(topic, a.subTopic, b.subTopic);
  }

  /** Each record on a subtopic page belongs to the topic, is stored under its own key, and lies after the start subtopic. */
  lemma QuerySubTopicsFound(st: State, topic: string, startAfter: Option<string>, limit: Option<U32>)
    requires SubTopicsKeyed(st, topic)
    ensures var r := QuerySubTopics(st, topic, startAfter, limit);
      forall i :: 0 <= i < |r| ==>
        && r[i].topic == topic
        && SubTopicKeyToString(r[i]) in st.subTopics && st.subTopics[SubTopicKeyToString(r[i])] == r[i]
        && After(startAfter, r[i].subTopic)
  {
    var scope := SubTopicScope(st, topic);
    var cursor := SubTopicCursor(topic, startAfter);
    PageRecordsFound(st.subTopics, scope, SubTopicResumeCursor(topic), cursor, PageSize(limit));
    var r := QuerySubTopics(st, topic, startAfter, limit);
    forall i | 0 <= i < |r| ensures After(startAfter, r[i].subTopic) {
      if startAfter.Some? {
        SubTopicKeyOrderFollowsSubTopic(topic, startAfter.value, r[i].subTopic);
      }
    }
  }

  /** A subtopic page is ordered by subtopic. */
  lemma QuerySubTopicsOrdered(st: State, topic: string, startAfter: Option<string>, limit: Option<U32>)
    requires SubTopicsKeyed(st, topic)
    ensures var r := QuerySubTopics(st, topic, startAfter, limit);
      forall i, j :: 0 <= i < j < |r| ==> Less(r[i].subTopic, r[j].subTopic)
  {
    PageRecordsOrdered(st.subTopics, SubTopicScope(st, topic), SubTopicResumeCursor(topic),
                       SubTopicCursor(topic, startAfter), PageSize(limit));
    var r := QuerySubTopics(st, topic, startAfter, limit);
    forall i, j | 0 <= i < j < |r| ensures Less(r[i].subTopic, r[j].subTopic) {
      SubTopicCursorOrder(topic, r[i], r[j]);
    }
  }

  /** A subtopic page skips none: a record of the topic after the start but not on the page comes after all of it. */
  lemma QuerySubTopicsComplete(st: State, topic: string, startAfter: Option<string>, limit: Option<U32>)
    requires SubTopicsKeyed(st, topic)
    ensures var r := QuerySubTopics(st, topic, startAfter, limit);
      forall k, i :: k in st.subTopics && st.subTopics[k].topic == topic
          && After(startAfter, st.subTopics[k].subTopic) && st.subTopics[k] !in r && 0 <= i < |r|
          ==> Less(r[i].subTopic, st.subTopics[k].subTopic)
  {
    var scope := SubTopicScope(st, topic);
    var cursor := SubTopicCursor(topic, startAfter);
    PageRecordsComplete(st.subTopics, scope, SubTopicResumeCursor(topic), cursor, PageSize(limit));
    var r := QuerySubTopics(st, topic, startAfter, limit);
    forall k, i | k in st.subTopics && st.subTopics[k].topic == topic
        && After(startAfter, st.subTopics[k].subTopic) && st.subTopics[k] !in r && 0 <= i < |r|
      ensures Less(r[i].subTopic, st.subTopics[k].subTopic)
    {
      var v := st.subTopics[k];
      assert k in scope;
      assert SubTopicResumeCursor(topic)(v) == Some(k);
      if startAfter.Some? {
        SubTopicKeyOrderFollowsSubTopic(topic, startAfter.value, v.subTopic);
      }
      assert After(cursor, k);
      SubTopicCursorOrder(topic, r[i], v);
    }
  }

  /**
    A client that pages through one topic's subtopics, each time starting
    after the last subtopic returned; `limit` is passed as the query takes it,
    so `None` pages ten at a time.
  */
  ghost function SubTopicPages(st: State, topic: string, startAfter: Option<string>, limit: Option<U32>): seq<SubTopicKey>
    requires SubTopicsKeyed(st, topic) && PageSize(limit) > 0
  {
    ChainRows(st.subTopics, SubTopicScope(st, topic), SubTopicResumeCursor(topic),
              SubTopicCursor(topic, startAfter), PageSize(limit))
  }

  /** Each step of the chain is one `query_sub_topics` call, resumed after the last subtopic it returned. */
  lemma SubTopicPagesResume(st: State, topic: string, startAfter: Option<string>, limit: Option<U32>)
    requires SubTopicsKeyed(st, topic) && PageSize(limit) > 0
    ensures var p := QuerySubTopics(st, topic, startAfter, limit);
      && (p == [] ==> SubTopicPages(st, topic, startAfter, limit) == [])
      && (p != [] ==> SubTopicPages(st, topic, startAfter, limit)
                      == p + SubTopicPages(st, topic, Some(p[|p| - 1].subTopic), limit))
  {
    var scope, cursorOf, n := SubTopicScope(st, topic), SubTopicResumeCursor(topic), PageSize(limit);
    ChainRowsUnfold(st.subTopics, scope, cursorOf, SubTopicCursor(topic, startAfter), n);
    var p := QuerySubTopics(st, topic, startAfter, limit);
    assert p == Rows(st.subTopics, Page(scope, SubTopicCursor(topic, startAfter), n));
    if p != [] {
      var last := p[|p| - 1];
      assert cursorOf(last) == SubTopicCursor(topic, Some(last.subTopic));
      assert SubTopicPages(st, topic, Some(last.subTopic), limit)
          == ChainRows(st.subTopics, scope, cursorOf, cursorOf(last), n);
    }
  }

  /** From no cursor, chained pages return exactly the subtopic records of the topic. */
  lemma SubTopicListingMembers(st: State, topic: string, limit: Option<U32>)
    requires SubTopicsKeyed(st, topic) && PageSize(limit) > 0
    ensures var all := SubTopicPages(st, topic, None, limit);
      forall v :: v in all <==> v.topic == topic && SubTopicKeyToString(v) in st.subTopics
                                && st.subTopics[SubTopicKeyToString(v)] == v
  {
    var scope := SubTopicScope(st, topic);
    ChainRowsMembers(st.subTopics, scope, SubTopicResumeCursor(topic), PageSize(limit));
    forall v: SubTopicKey | v.topic == topic && SubTopicKeyToString(v) in st.subTopics && st.subTopics[SubTopicKeyToString(v)] == v
      ensures SubTopicKeyToString(v) in scope
    {
    }
    forall k | k in scope ensures SubTopicKeyToString(st.subTopics[k]) == k {
      assert SubTopicResumeCursor(topic)(st.subTopics[k]) == Some(k);
    }
  }

  /** From no cursor, chained pages list the topic's subtopics in ascending order, each once. */
  lemma SubTopicListingOrdered(st: State, topic: string, limit: Option<U32>)
    requires SubTopicsKeyed(st, topic) && PageSize(limit) > 0
    ensures var all := SubTopicPages(st, topic, None, limit);
      forall i, j :: 0 <= i < j < |all| ==> Less(all[i].subTopic, all[j].subTopic)
  {
    ChainRowsOrdered(st.subTopics, SubTopicScope(st, topic), SubTopicResumeCursor(topic), PageSize(limit));
    assert SubTopicCursor(topic, None) == None;
    var all := SubTopicPages(st, topic, None, limit);
    forall i, j | 0 <= i < j < |all| ensures Less(all[i].subTopic, all[j].subTopic) {
      SubTopicCursorOrder(topic, all[i], all[j]);
    }
  }

  // ---------------------------------------------------------------------------
  // Entries: scanned through the by-subtopic note index

  /** The note keys the note index holds under one index value. */
  ghost function NoteScope(st: State, value: string): set<string>
  {
    Scope(st.notes, NoteIdx, value)
  }

  /** The exclusive bound `query_entries` builds from a note name. */
  function EntryCursor(topic: string, subTopic: string, startAfter: Option<string>): Option<string>
  {
    match startAfter
    case None => None
    case Some(name) => Some(NoteKeyToString(NoteKey(topic, subTopic, name)))
  }

  /**
    `query_entries` as written: the index prefix is "{topic}_{sub_topic}",
    while notes are indexed under "{topic}/{sub_topic}".
  */
  ghost function QueryEntries(st: State, topic: string, subTopic: string, startAfter: Option<string>, limit: Option<U32>)
    : (r: seq<NoteEntry>)
    ensures |r| == (if |Eligible(NoteScope(st, topic + "_" + subTopic), EntryCursor(topic, subTopic, startAfter))| < PageSize(limit)
                    then |Eligible(NoteScope(st, topic + "_" + subTopic), EntryCursor(topic, subTopic, startAfter))| else PageSize(limit))
  {
    var ks := Page(NoteScope(st, topic + "_" + subTopic), EntryCursor(topic, subTopic, startAfter), PageSize(limit));
    PageProperties(NoteScope(st, topic + "_" + subTopic), EntryCursor(topic, subTopic, startAfter), PageSize(limit));
    Rows(st.notes, ks)
  }

  lemma SeparatorsDiffer(t: string, a: string, b: string)
    ensures t + "/" + a != t + "_" + b
  {
    assert (t + "/" + a)[|t|] == '/';
    assert (t + "_" + b)[|t|] == '_';
  }

  /**
    What `query_entries` returns is indexed under "{topic}_{sub_topic}", so
    no note of that very topic and subtopic is ever listed.
  */
  lemma QueryEntriesMissesOwnNotes(st: State, topic: string, subTopic: string, startAfter: Option<string>, limit: Option<U32>)
    ensures var r := QueryEntries(st, topic, subTopic, startAfter, limit);
      forall i :: 0 <= i < |r| ==>
        && NoteIdx(r[i]) == topic + "_" + subTopic
        && !(r[i].topic == topic && r[i].subTopic == subTopic)
  {
    var ks := Page(NoteScope(st, topic + "_" + subTopic), EntryCursor(topic, subTopic, startAfter), PageSize(limit));
    PageBounds(NoteScope(st, topic + "_" + subTopic), EntryCursor(topic, subTopic, startAfter), PageSize(limit));
    var r := QueryEntries(st, topic, subTopic, startAfter, limit);
    forall i | 0 <= i < |r| ensures NoteIdx(r[i]) == topic + "_" + subTopic {
      assert ks[i] in NoteScope(st, topic + "_" + subTopic);
    }
    SeparatorsDiffer(topic, subTopic, subTopic);
  }

  /** The listing `query_entries` evidently intends: the note index prefix "{topic}/{sub_topic}". */
  ghost function QueryEntriesIntended(st: State, topic: string, subTopic: string, startAfter: Option<string>, limit: Option<U32>)
    : (r: seq<NoteEntry>)
    ensures |r| == (if |Eligible(NoteScope(st, topic + "/" + subTopic), EntryCursor(topic, subTopic, startAfter))| < PageSize(limit)
                    then |Eligible(NoteScope(st, topic + "/" + subTopic), EntryCursor(topic, subTopic, startAfter))| else PageSize(limit))
  {
    var ks := Page(NoteScope(st, topic + "/" + subTopic), EntryCursor(topic, subTopic, startAfter), PageSize(limit));
    PageProperties(NoteScope(st, topic + "/" + subTopic), EntryCursor(topic, subTopic, startAfter), PageSize(limit));
    Rows(st.notes, ks)
  }

  /** `query_note`: exact lookup under the encoded key, NotFound when absent. */
  function QueryNote(st: State, topic: string, subTopic: string, name: string): (r: Result<NoteEntry, StdError>)
    ensures r.Ok? <==> NoteKeyToString(NoteKey(topic, subTopic, name)) in st.notes
    ensures r.Err? ==> r.error == NotFound
    ensures r.Ok? ==> r.value == st.notes[NoteKeyToString(NoteKey(topic, subTopic, name))]
  {
    var key := NoteKeyToString(NoteKey(topic, subTopic, name));
    if key in st.notes then Ok(st.notes[key]) else Err(NotFound)
  }

  /**
    In a consistent store the note found shares its encoded key with the
    request, and is exactly the requested note when neither topic holds a
    '/' and neither subtopic a ':'.
  */
  lemma QueryNoteMatchesRequest(st: State, topic: string, subTopic: string, name: string)
    requires Inv(st)
    ensures var r := QueryNote(st, topic, subTopic, name);
      && (r.Ok? ==> NoteKeyToString(EntryKey(r.value)) == NoteKeyToString(NoteKey(topic, subTopic, name)))
      && (r.Ok? && '/' !in topic && ':' !in subTopic && '/' !in r.value.topic && ':' !in r.value.subTopic ==>
            EntryKey(r.value) == NoteKey(topic, subTopic, name))
  {
    var r := QueryNote(st, topic, subTopic, name);
    if r.Ok? && '/' !in topic && ':' !in subTopic && '/' !in r.value.topic && ':' !in r.value.subTopic {
      NoteKeyInjectiveWithoutSeparators(EntryKey(r.value), NoteKey(topic, subTopic, name));
    }
  }

  /** The cursor a client resumes from after a note: `start_after` set to its name. */
  function EntryResumeCursor(topic: string, subTopic: string): NoteEntry -> Option<string>
  {
    (e: NoteEntry) => EntryCursor(topic, subTopic, Some(e.name))
  }

  /** Every note under "{topic}/{sub_topic}" is found again from the cursor its name gives. */
  ghost predicate NotesKeyed(st: State, topic: string, subTopic: string)
  {
    CursorsAreKeys(st.notes, NoteScope(st, topic + "/" + subTopic), EntryResumeCursor(topic, subTopic))
  }

  /** A consistent store is keyed for every topic and subtopic. */
  lemma EntryCursorsAreKeys(st: State, topic: string, subTopic: string)
    requires Inv(st)
    ensures NotesKeyed(st, topic, subTopic)
  {
    forall k | k in NoteScope(st, topic + "/" + subTopic)
      ensures EntryResumeCursor(topic, subTopic)(st.notes[k]) == Some(k)
    {
      NoteKeyExtendsIndex(st.notes[k]);
    }
  }

  /** Under one topic and subtopic, the cursors of two notes are ordered as their names. */
  lemma EntryCursorOrder(topic: string, subTopic: string, a: NoteEntry, b: NoteEntry)
    ensures EntryResumeCursor(topic, subTopic)(a).Some? && EntryResumeCursor(topic, subTopic)(b).Some?
    ensures Less(EntryResumeCursor(topic, subTopic)(a).value, EntryResumeCursor(topic, subTopic)(b).value)
        <==> Less(a.name, b.name)
  {
    NoteKeyOrderFollowsName(topic, subTopic, a.name, b.name);
  }

  /**
    Each note on an intended entry page is indexed under "{topic}/{sub_topic}",
    is what `query_note` returns for its name, and lies after the start name.
  */
  lemma QueryEntriesIntendedFound(st: State, topic: string, subTopic: string, startAfter: Option<string>, limit: Option<U32>)
    requires NotesKeyed(st, topic, subTopic)
    ensures var r := QueryEntriesIntended(st, topic, subTopic, startAfter, limit);
      forall i :: 0 <= i < |r| ==>
        && NoteIdx(r[i]) == topic + "/" + subTopic
        && QueryNote(st, topic, subTopic, r[i].name) == Ok(r[i])
        && After(startAfter, r[i].name)
  {
    var scope := NoteScope(st, topic + "/" + subTopic);
    PageRecordsFound(st.notes, scope, EntryResumeCursor(topic, subTopic), EntryCursor(topic, subTopic, startAfter), PageSize(limit));
    var r := QueryEntriesIntended(st, topic, subTopic, startAfter, limit);
    forall i | 0 <= i < |r|
      ensures QueryNote(st, topic, subTopic, r[i].name) == Ok(r[i])
      ensures After(startAfter, r[i].name)
    {
      assert EntryResumeCursor(topic, subTopic)(r[i]) == Some(NoteKeyToString(NoteKey(topic, subTopic, r[i].name)));
      if startAfter.Some? {
        NoteKeyOrderFollowsName(topic, subTopic, startAfter.value, r[i].name);
      }
    }
  }

  /** An intended entry page is ordered by name. */
  lemma QueryEntriesIntendedOrdered(st: State, topic: string, subTopic: string, startAfter: Option<string>, limit: Option<U32>)
    requires NotesKeyed(st, topic, subTopic)
    ensures var r := QueryEntriesIntended(st, topic, subTopic, startAfter, limit);
      forall i, j :: 0 <= i < j < |r| ==> Less(r[i].name, r[j].name)
  {
    PageRecordsOrdered(st.notes, NoteScope(st, topic + "/" + subTopic), EntryResumeCursor(topic, subTopic),
                       EntryCursor(topic, subTopic, startAfter), PageSize(limit));
    var r := QueryEntriesIntended(st, topic, subTopic, startAfter, limit);
    forall i, j | 0 <= i < j < |r| ensures Less(r[i].name, r[j].name) {
      EntryCursorOrder(topic, subTopic, r[i], r[j]);
    }
  }

  /** An intended entry page skips none: a note of the subtopic after the start but not on the page comes after all of it. */
  lemma QueryEntriesIntendedComplete(st: State, topic: string, subTopic: string, startAfter: Option<string>, limit: Option<U32>)
    requires NotesKeyed(st, topic, subTopic)
    ensures var r := QueryEntriesIntended(st, topic, subTopic, startAfter, limit);
      forall k, i :: k in st.notes && NoteIdx(st.notes[k]) == topic + "/" + subTopic
          && After(startAfter, st.notes[k].name) && st.notes[k] !in r && 0 <= i < |r|
          ==> Less(r[i].name, st.notes[k].name)
  {
    var scope := NoteScope(st, topic + "/" + subTopic);
    var cursor := EntryCursor(topic, subTopic, startAfter);
    PageRecordsComplete(st.notes, scope, EntryResumeCursor(topic, subTopic), cursor, PageSize(limit));
    var r := QueryEntriesIntended(st, topic, subTopic, startAfter, limit);
    forall k, i | k in st.notes && NoteIdx(st.notes[k]) == topic + "/" + subTopic
        && After(startAfter, st.notes[k].name) && st.notes[k] !in r && 0 <= i < |r|
      ensures Less(r[i].name, st.notes[k].name)
    {
      var e := st.notes[k];
      assert k in scope;
      assert EntryResumeCursor(topic, subTopic)(e) == Some(k);
      if startAfter.Some? {
        NoteKeyOrderFollowsName(topic, subTopic, startAfter.value, e.name);
      }
      assert After(cursor, k);
      EntryCursorOrder(topic, subTopic, r[i], e);
    }
  }

  /**
    A client that pages through one subtopic's notes, each time starting
    after the last name returned; `None` as `limit` pages ten at a time.
  */
  ghost function EntryPages(st: State, topic: string, subTopic: string, startAfter: Option<string>, limit: Option<U32>): seq<NoteEntry>
    requires NotesKeyed(st, topic, subTopic) && PageSize(limit) > 0
  {
    ChainRows(st.notes, NoteScope(st, topic + "/" + subTopic), EntryResumeCursor(topic, subTopic),
              EntryCursor(topic, subTopic, startAfter), PageSize(limit))
  }

  /** Each step of the chain is one intended entries query, resumed after the last name it returned. */
  lemma EntryPagesResume(st: State, topic: string, subTopic: string, startAfter: Option<string>, limit: Option<U32>)
    requires NotesKeyed(st, topic, subTopic) && PageSize(limit) > 0
    ensures var p := QueryEntriesIntended(st, topic, subTopic, startAfter, limit);
      && (p == [] ==> EntryPages(st, topic, subTopic, startAfter, limit) == [])
      && (p != [] ==> EntryPages(st, topic, subTopic, startAfter, limit)
                      == p + EntryPages(st, topic, subTopic, Some(p[|p| - 1].name), limit))
  {
    var scope, cursorOf, n := NoteScope(st, topic + "/" + subTopic), EntryResumeCursor(topic, subTopic), PageSize(limit);
    ChainRowsUnfold(st.notes, scope, cursorOf, EntryCursor(topic, subTopic, startAfter), n);
    var p := QueryEntriesIntended(st, topic, subTopic, startAfter, limit);
    assert p == Rows(st.notes, Page(scope, EntryCursor(topic, subTopic, startAfter), n));
    if p != [] {
      var last := p[|p| - 1];
      assert cursorOf(last) == EntryCursor(topic, subTopic, Some(last.name));
      assert EntryPages(st, topic, subTopic, Some(last.name), limit)
          == ChainRows(st.notes, scope, cursorOf, cursorOf(last), n);
    }
  }

  /** From no cursor, chained intended entry pages return exactly the notes indexed under "{topic}/{sub_topic}". */
  lemma EntryListingMembers(st: State, topic: string, subTopic: string, limit: Option<U32>)
    requires NotesKeyed(st, topic, subTopic) && PageSize(limit) > 0
    ensures var all := EntryPages(st, topic, subTopic, None, limit);
      forall e :: e in all <==> NoteIdx(e) == topic + "/" + subTopic && NoteKeyToString(EntryKey(e)) in st.notes
                                && st.notes[NoteKeyToString(EntryKey(e))] == e
  {
    var scope := NoteScope(st, topic + "/" + subTopic);
    ChainRowsMembers(st.notes, scope, EntryResumeCursor(topic, subTopic), PageSize(limit));
    forall e: NoteEntry | NoteIdx(e) == topic + "/" + subTopic && NoteKeyToString(EntryKey(e)) in st.notes
                          && st.notes[NoteKeyToString(EntryKey(e))] == e
      ensures NoteKeyToString(EntryKey(e)) in scope
    {
    }
    forall k | k in scope ensures NoteKeyToString(EntryKey(st.notes[k])) == k {
      assert EntryResumeCursor(topic, subTopic)(st.notes[k]) == Some(k);
    }
  }

  /** From no cursor, chained intended entry pages list the notes in ascending order of name, each once. */
  lemma EntryListingOrdered(st: State, topic: string, subTopic: string, limit: Option<U32>)
    requires NotesKeyed(st, topic, subTopic) && PageSize(limit) > 0
    ensures var all := EntryPages(st, topic, subTopic, None, limit);
      forall i, j :: 0 <= i < j < |all| ==> Less(all[i].name, all[j].name)
  {
    ChainRowsOrdered(st.notes, NoteScope(st, topic + "/" + subTopic), EntryResumeCursor(topic, subTopic), PageSize(limit));
    assert EntryCursor(topic, subTopic, None) == None;
    var all := EntryPages(st, topic, subTopic, None, limit);
    forall i, j | 0 <= i < j < |all| ensures Less(all[i].name, all[j].name) {
      EntryCursorOrder(topic, subTopic, all[i], all[j]);
    }
  }
}
