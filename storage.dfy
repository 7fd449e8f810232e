/**
  The persisted layout (contracts/pfc-notes-contract/src/state.rs): four keyed
  tables, the namespaces they live under, and the two secondary indexes, which
  are derived from their tables and never stored on their own.
*/
module Storage {
  import opened Codec

  const TOPICSET_KEY := "topic_001"
  const WRITERS_KEY := "writers_001"
  const SUBTOPICS_KEY := "topic_subtopics_001"
  const SUBTOPICS_INDEX_KEY := "topic_subtopics__subtopics"
  const NOTE_KEY := "topic_subtopics_notes_001"
  const NOTE_INDEX_KEY := "topic_subtopics__note"

  /** The six namespaces are pairwise distinct, so no two tables share a key. */
  lemma NamespacesDistinct()
    ensures |{TOPICSET_KEY, WRITERS_KEY, SUBTOPICS_KEY, SUBTOPICS_INDEX_KEY, NOTE_KEY, NOTE_INDEX_KEY}| == 6
  {
  }

  /**
    The whole store. `owner` stands for the ownership collaborator's record;
    `writers` is WRITER (address to display name), `topics` is TOPICSMAP,
    `subTopics` is the primary table of `topic_subtopics()` and `notes` the
    primary table of `notes()`.
  */
  datatype State = State(
    owner: string,
    writers: map<string, string>,
    topics: map<string, string>,
    subTopics: map<string, SubTopicKey>,
    notes: map<string, NoteEntry>)

  /** `topic_subtopic_idx`: a subtopic record is indexed by its topic. */
  function TopicSubtopicIdx(d: SubTopicKey): string
  {
    d.topic
  }

  /** `note_idx`: a note is indexed by "{topic}/{sub_topic}". */
  function NoteIdx(d: NoteEntry): string
  {
    d.topic + "/" + d.subTopic
  }

  /** The note index value is a proper prefix of the note's own key. */
  lemma NoteKeyExtendsIndex(e: NoteEntry)
    ensures NoteKeyToString(EntryKey(e)) == NoteIdx(e) + ":" + e.name
    ensures |NoteIdx(e)| < |NoteKeyToString(EntryKey(e))|
    ensures NoteKeyToString(EntryKey(e))[..|NoteIdx(e)|] == NoteIdx(e)
  {
    assert NoteKeyToString(EntryKey(e)) == NoteIdx(e) + (":" + e.name);
  }

  /**
    A multi-index as the set of (index value, primary key) pairs it holds:
    exactly one pair per row of its table.
  */
  ghost function IndexOf<V>(table: map<string, V>, idx: V -> string): set<(string, string)>
  {
    set k | k in table :: (idx(table[k]), k)
  }

  /** A pair is in the index exactly when its key is a row whose index value is the pair's value. */
  lemma IndexMembers<V>(table: map<string, V>, idx: V -> string)
    ensures forall i, k :: (i, k) in IndexOf(table, idx) <==> k in table && idx(table[k]) == i
  {
    forall i, k | k in table && idx(table[k]) == i
      ensures (i, k) in IndexOf(table, idx)
    {
      assert (idx(table[k]), k) in IndexOf(table, idx);
    }
  }

  /** The primary keys an index holds under one index value (`.prefix(value)`). */
  ghost function Scope<V>(table: map<string, V>, idx: V -> string, value: string): (keys: set<string>)
    ensures forall k :: k in keys <==> k in table && idx(table[k]) == value
  {
    IndexMembers(table, idx);
    set k | k in table && (value, k) in IndexOf(table, idx)
  }

  /** Saving over a key replaces its old index pair by the new one. */
  lemma IndexAfterSave<V>(table: map<string, V>, idx: V -> string, k: string, v: V)
    ensures IndexOf(table[k := v], idx)
         == (IndexOf(table, idx) - (if k in table then {(idx(table[k]), k)} else {})) + {(idx(v), k)}
  {
    IndexMembers(table, idx);
    IndexMembers(table[k := v], idx);
  }

  /** Removing a key drops its index pair and nothing else. */
  lemma IndexAfterRemove<V>(table: map<string, V>, idx: V -> string, k: string)
    ensures IndexOf(table - {k}, idx)
         == IndexOf(table, idx) - (if k in table then {(idx(table[k]), k)} else {})
  {
    IndexMembers(table, idx);
    IndexMembers(table - {k}, idx);
  }

  /**
    What every reachable store satisfies: each topic marker maps to itself, and
    every subtopic record and note is stored under the key built from its own fields.
  */
  ghost predicate Inv(st: State)
  {
    && (forall k :: k in st.topics ==> st.topics[k] == k)
    && (forall k :: k in st.subTopics ==> SubTopicKeyToString(st.subTopics[k]) == k)
    && (forall k :: k in st.notes ==> NoteKeyToString(EntryKey(st.notes[k])) == k)
  }
}
