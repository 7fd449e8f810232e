/**
  The state-changing handlers (contracts/pfc-notes-contract/src/execute.rs).

  Each handler is specified twice over: a transition function from the old
  store to an outcome (the new store, or the error that aborts the call), and
  a method of `Store` that performs the same saves and removes in place and is
  proved to land on that outcome. An error leaves the store as it was, which
  is how the host's transaction rollback looks from inside the contract.
*/
module Exec {
  import opened Wrappers
  import opened Errors
  import opened Codec
  import opened Storage
  import opened Pagination
  import opened Queries

  /** What a handler produces: the store after it, or the error it fails with. */
  type Outcome = Result<State, ContractError>

  /** The store once the outcome is applied: unchanged on error. */
  function Commit(st: State, o: Outcome): State
  {
    if o.Ok? then o.value else st
  }

  /** The response a caller sees for an outcome. */
  function Status(o: Outcome): Result<(), ContractError>
  {
    if o.Ok? then Ok(()) else Err(o.error)
  }

  /** `assert_is_writer`: loading the address from WRITER; a miss is NotFound. */
  function AssertIsWriter(st: State, addr: string): (r: Result<(), ContractError>)
    ensures r.Ok? <==> addr in st.writers
    ensures r.Err? ==> r.error == Std(NotFound)
  {
    if addr in st.writers then Ok(()) else Err(Std(NotFound))
  }

  /**
    What a successful `exec_add_note` writes: each of TOPICSMAP, the subtopic
    table and the note table gains its one written key with the new value,
    and every other row keeps its old value.
  */
  predicate WritesNote(st: State, after: State, sender: string, topic: string, subTopic: string, name: string,
                       noteType: NoteType, note: string)
  {
    var subTopicKey := SubTopicKeyToString(SubTopicKey(topic, subTopic));
    var noteKey := NoteKeyToString(NoteKey(topic, subTopic, name));
    && after.topics.Keys == st.topics.Keys + {topic}
    && after.topics[topic] == topic
    && (forall k :: k in st.topics && k != topic ==> after.topics[k] == st.topics[k])
    && after.subTopics.Keys == st.subTopics.Keys + {subTopicKey}
    && after.subTopics[subTopicKey] == SubTopicKey(topic, subTopic)
    && (forall k :: k in st.subTopics && k != subTopicKey ==> after.subTopics[k] == st.subTopics[k])
    && after.notes.Keys == st.notes.Keys + {noteKey}
    && after.notes[noteKey] == NoteEntry(sender, topic, subTopic, name, noteType, note)
    && (forall k :: k in st.notes && k != noteKey ==> after.notes[k] == st.notes[k])
  }

  /** `exec_add_note`: a writer saves the topic marker, the subtopic record and the note. */
  function ExecAddNote(st: State, sender: string, topic: string, subTopic: string, name: string,
                       noteType: NoteType, note: string): (r: Outcome)
    ensures r.Err? <==> sender !in st.writers
    ensures r.Err? ==> r.error == Std(NotFound)
    ensures r.Ok? ==> r.value.owner == st.owner && r.value.writers == st.writers
    ensures r.Ok? ==> WritesNote(st, r.value, sender, topic, subTopic, name, noteType, note)
  {
    var gate := AssertIsWriter(st, sender);
    if gate.Err? then Err(gate.error)
    else
      var subTopicKey := SubTopicKey(topic, subTopic);
      var noteKey := NoteKey(topic, subTopic, name);
      Ok(st.(topics := st.topics[topic := topic],
             subTopics := st.subTopics[SubTopicKeyToString(subTopicKey) := subTopicKey],
             notes := st.notes[NoteKeyToString(noteKey) := NoteEntry(sender, topic, subTopic, name, noteType, note)]))
  }

  /** `exec_rm_note`: a writer removes a note that exists; the markers stay. */
  function ExecRmNote(st: State, sender: string, topic: string, subTopic: string, name: string): (r: Outcome)
    ensures r.Err? <==> sender !in st.writers || NoteKeyToString(NoteKey(topic, subTopic, name)) !in st.notes
    ensures r.Err? ==> r.error == Std(NotFound)
    ensures r.Ok? ==>
      && r.value.owner == st.owner && r.value.writers == st.writers
      && r.value.topics == st.topics && r.value.subTopics == st.subTopics
      && r.value.notes.Keys == st.notes.Keys - {NoteKeyToString(NoteKey(topic, subTopic, name))}
      && (forall k :: k in r.value.notes ==> r.value.notes[k] == st.notes[k])
  {
    var gate := AssertIsWriter(st, sender);
    if gate.Err? then Err(gate.error)
    else
      var key := NoteKeyToString(NoteKey(topic, subTopic, name));
      if key !in st.notes then Err(Std(NotFound))
      else Ok(st.(notes := st.notes - {key}))
  }

  /** `exec_rm_sub_topic`: a writer removes a subtopic record, present or not; its notes stay. */
  function ExecRmSubTopic(st: State, sender: string, topic: string, subTopic: string): (r: Outcome)
    ensures r.Err? <==> sender !in st.writers
    ensures r.Err? ==> r.error == Std(NotFound)
    ensures r.Ok? ==>
      && r.value.owner == st.owner && r.value.writers == st.writers
      && r.value.topics == st.topics && r.value.notes == st.notes
      && r.value.subTopics.Keys == st.subTopics.Keys - {SubTopicKeyToString(SubTopicKey(topic, subTopic))}
      && (forall k :: k in r.value.subTopics ==> r.value.subTopics[k] == st.subTopics[k])
  {
    var gate := AssertIsWriter(st, sender);
    if gate.Err? then Err(gate.error)
    else Ok(st.(subTopics := st.subTopics - {SubTopicKeyToString(SubTopicKey(topic, subTopic))}))
  }

  /** `exec_rm_topic`: a writer removes a topic marker, present or not; its subtopics and notes stay. */
  function ExecRmTopic(st: State, sender: string, topic: string): (r: Outcome)
    ensures r.Err? <==> sender !in st.writers
    ensures r.Err? ==> r.error == Std(NotFound)
    ensures r.Ok? ==>
      && r.value.owner == st.owner && r.value.writers == st.writers
      && r.value.subTopics == st.subTopics && r.value.notes == st.notes
      && r.value.topics.Keys == st.topics.Keys - {topic}
      && (forall k :: k in r.value.topics ==> r.value.topics[k] == st.topics[k])
  {
    var gate := AssertIsWriter(st, sender);
    if gate.Err? then Err(gate.error)
    else Ok(st.(topics := st.topics - {topic}))
  }

  /** `exec_add_writer`: a valid address is saved with its display name, replacing any earlier one. */
  function ExecAddWriter(st: State, address: string, name: string, isValid: string -> bool): (r: Outcome)
    ensures r.Err? <==> !isValid(address)
    ensures r.Err? ==> r.error == Std(InvalidAddress(address))
    ensures r.Ok? ==>
      && r.value.owner == st.owner && r.value.topics == st.topics
      && r.value.subTopics == st.subTopics && r.value.notes == st.notes
      && r.value.writers.Keys == st.writers.Keys + {address}
      && r.value.writers[address] == name
      && (forall a :: a in st.writers && a != address ==> r.value.writers[a] == st.writers[a])
  {
    if !isValid(address) then Err(Std(InvalidAddress(address)))
    else Ok(st.(writers := st.writers[address := name]))
  }

  /**
    `exec_rm_writer` as written: the result of the existence lookup is
    discarded, so a valid address is removed whether or not it was a writer.
  */
  function ExecRmWriter(st: State, address: string, isValid: string -> bool): (r: Outcome)
    ensures r.Err? <==> !isValid(address)
    ensures r.Err? ==> r.error == Std(InvalidAddress(address))
    ensures r.Ok? ==>
      && r.value.owner == st.owner && r.value.topics == st.topics
      && r.value.subTopics == st.subTopics && r.value.notes == st.notes
      && r.value.writers.Keys == st.writers.Keys - {address}
      && (forall a :: a in r.value.writers ==> r.value.writers[a] == st.writers[a])
  {
    if !isValid(address) then Err(Std(InvalidAddress(address)))
    else Ok(st.(writers := st.writers - {address}))
  }

  /** `exec_rm_writer` as evidently intended: an address that is not a writer is reported. */
  function ExecRmWriterChecked(st: State, address: string, isValid: string -> bool): (r: Outcome)
    ensures r.Err? <==> !isValid(address) || address !in st.writers
    ensures r.Err? && isValid(address) ==> r.error == AddressDoesNotExist(address)
    ensures r.Ok? ==> r.value.writers.Keys == st.writers.Keys - {address}
  {
    if !isValid(address) then Err(Std(InvalidAddress(address)))
    else if address !in st.writers then Err(AddressDoesNotExist(address))
    else Ok(st.(writers := st.writers - {address}))
  }

  // ---------------------------------------------------------------------------
  // What the handlers promise

  /** A note a writer has just added is what `query_note` returns for its topic, subtopic and name. */
  lemma AddNoteThenQueryNote(st: State, sender: string, topic: string, subTopic: string, name: string,
                             noteType: NoteType, note: string)
    requires sender in st.writers
    ensures var r := ExecAddNote(st, sender, topic, subTopic, name, noteType, note);
      && r.Ok?
      && QueryNote(r.value, topic, subTopic, name) == Ok(NoteEntry(sender, topic, subTopic, name, noteType, note))
      && r.value.topics[topic] == topic
      && r.value.subTopics[SubTopicKeyToString(SubTopicKey(topic, subTopic))] == SubTopicKey(topic, subTopic)
  {
  }

  /** Adding under the same topic, subtopic and name again overwrites the note: only the last one counts. */
  lemma AddNoteUpsert(st: State, sender: string, topic: string, subTopic: string, name: string,
                      type1: NoteType, note1: string, type2: NoteType, note2: string)
    requires sender in st.writers
    ensures var first := ExecAddNote(st, sender, topic, subTopic, name, type1, note1);
      && first.Ok?
      && ExecAddNote(first.value, sender, topic, subTopic, name, type2, note2)
         == ExecAddNote(st, sender, topic, subTopic, name, type2, note2)
  {
    var first := ExecAddNote(st, sender, topic, subTopic, name, type1, note1).value;
    var second := ExecAddNote(first, sender, topic, subTopic, name, type2, note2).value;
    var direct := ExecAddNote(st, sender, topic, subTopic, name, type2, note2).value;
    assert second.topics == direct.topics;
    assert second.subTopics == direct.subTopics;
    assert second.notes == direct.notes;
  }

  /** A consistent store stays consistent when a note is added. */
  lemma AddNotePreservesInv(st: State, sender: string, topic: string, subTopic: string, name: string,
                            noteType: NoteType, note: string)
    requires Inv(st)
    ensures Inv(Commit(st, ExecAddNote(st, sender, topic, subTopic, name, noteType, note)))
  {
    var r := ExecAddNote(st, sender, topic, subTopic, name, noteType, note);
    if r.Ok? {
      var entry := NoteEntry(sender, topic, subTopic, name, noteType, note);
      assert EntryKey(entry) == NoteKey(topic, subTopic, name);
    }
  }

  /**
    Adding a note moves its key into the index scope "{topic}/{sub_topic}" and
    out of whatever scope an entry it overwrote was indexed under; the
    subtopic record likewise joins the scope of its topic.
  */
  lemma AddNoteRescopes(st: State, sender: string, topic: string, subTopic: string, name: string,
                        noteType: NoteType, note: string, value: string)
    requires sender in st.writers
    ensures var after := ExecAddNote(st, sender, topic, subTopic, name, noteType, note).value;
            var noteKey := NoteKeyToString(NoteKey(topic, subTopic, name));
            var subTopicKey := SubTopicKeyToString(SubTopicKey(topic, subTopic));
      && NoteScope(after, value)
         == (NoteScope(st, value) - {noteKey}) + (if value == topic + "/" + subTopic then {noteKey} else {})
      && SubTopicScope(after, value)
         == (SubTopicScope(st, value) - {subTopicKey}) + (if value == topic then {subTopicKey} else {})
  {
    var after := ExecAddNote(st, sender, topic, subTopic, name, noteType, note).value;
    var noteKey := NoteKeyToString(NoteKey(topic, subTopic, name));
    var subTopicKey := SubTopicKeyToString(SubTopicKey(topic, subTopic));
    var lhs := NoteScope(after, value);
    var rhs := (NoteScope(st, value) - {noteKey}) + (if value == topic + "/" + subTopic then {noteKey} else {});
    assert forall k :: k in lhs <==> k in rhs;
    var lhs' := SubTopicScope(after, value);
    var rhs' := (SubTopicScope(st, value) - {subTopicKey}) + (if value == topic then {subTopicKey} else {});
    assert forall k :: k in lhs' <==> k in rhs';
  }

  /**
    `query_entries` as written never lists a note just added under the
    topic and subtopic it is asked for.
  */
  lemma AddedNoteMissedByQueryEntries(st: State, sender: string, topic: string, subTopic: string, name: string,
                                      noteType: NoteType, note: string, startAfter: Option<string>, limit: Option<U32>)
    requires sender in st.writers
    ensures var after := ExecAddNote(st, sender, topic, subTopic, name, noteType, note).value;
      NoteEntry(sender, topic, subTopic, name, noteType, note) !in QueryEntries(after, topic, subTopic, startAfter, limit)
  {
    var after := ExecAddNote(st, sender, topic, subTopic, name, noteType, note).value;
    QueryEntriesMissesOwnNotes(after, topic, subTopic, startAfter, limit);
  }

  /** The corrected entries listing finds a note just added, when paged through from the start. */
  lemma AddedNoteListedByIntendedEntries(st: State, sender: string, topic: string, subTopic: string, name: string,
                                         noteType: NoteType, note: string, limit: Option<U32>)
    requires Inv(st) && sender in st.writers && PageSize(limit) > 0
    ensures var after := ExecAddNote(st, sender, topic, subTopic, name, noteType, note).value;
      && NotesKeyed(after, topic, subTopic)
      && NoteEntry(sender, topic, subTopic, name, noteType, note) in EntryPages(after, topic, subTopic, None, limit)
  {
    var after := ExecAddNote(st, sender, topic, subTopic, name, noteType, note).value;
    AddNotePreservesInv(st, sender, topic, subTopic, name, noteType, note);
    EntryCursorsAreKeys(after, topic, subTopic);
    EntryListingMembers(after, topic, subTopic, limit);
    AddNoteThenQueryNote(st, sender, topic, subTopic, name, noteType, note);
  }

  /** After a note is removed, `query_note` reports it NotFound; every other note is still found. */
  lemma RmNoteThenQueryNote(st: State, sender: string, topic: string, subTopic: string, name: string,
                            t: string, s: string, n: string)
    requires ExecRmNote(st, sender, topic, subTopic, name).Ok?
    ensures var after := ExecRmNote(st, sender, topic, subTopic, name).value;
      && QueryNote(after, topic, subTopic, name) == Err(NotFound)
      && (NoteKeyToString(NoteKey(t, s, n)) != NoteKeyToString(NoteKey(topic, subTopic, name)) ==>
            QueryNote(after, t, s, n) == QueryNote(st, t, s, n))
  {
  }

  /** A consistent store stays consistent when a note, subtopic or topic is removed. */
  lemma RemovalsPreserveInv(st: State, sender: string, topic: string, subTopic: string, name: string)
    requires Inv(st)
    ensures Inv(Commit(st, ExecRmNote(st, sender, topic, subTopic, name)))
    ensures Inv(Commit(st, ExecRmSubTopic(st, sender, topic, subTopic)))
    ensures Inv(Commit(st, ExecRmTopic(st, sender, topic)))
  {
  }

  /**
    Removing a subtopic record does not cascade: every note stays where it
    was, and the corrected entries listing is unchanged.
  */
  lemma RmSubTopicKeepsNotes(st: State, sender: string, topic: string, subTopic: string,
                             t: string, s: string, n: string, startAfter: Option<string>, limit: Option<U32>)
    requires sender in st.writers
    ensures var after := ExecRmSubTopic(st, sender, topic, subTopic).value;
      && QueryNote(after, t, s, n) == QueryNote(st, t, s, n)
      && QueryEntriesIntended(after, t, s, startAfter, limit) == QueryEntriesIntended(st, t, s, startAfter, limit)
      && SubTopicScope(after, topic) == SubTopicScope(st, topic) - {SubTopicKeyToString(SubTopicKey(topic, subTopic))}
  {
    var after := ExecRmSubTopic(st, sender, topic, subTopic).value;
    assert NoteScope(after, t + "/" + s) == NoteScope(st, t + "/" + s);
  }

  /**
    Removing a topic marker does not cascade: the topic's subtopics are still
    listed, while `query_topics` no longer lists the topic.
  */
  lemma RmTopicKeepsSubTopics(st: State, sender: string, topic: string,
                              t: string, startAfter: Option<string>, limit: Option<U32>)
    requires sender in st.writers
    ensures var after := ExecRmTopic(st, sender, topic).value;
      && QuerySubTopics(after, t, startAfter, limit) == QuerySubTopics(st, t, startAfter, limit)
      && topic !in QueryTopics(after, startAfter, limit)
  {
    var after := ExecRmTopic(st, sender, topic).value;
    assert SubTopicScope(after, t) == SubTopicScope(st, t);
  }

  /** A freshly added writer passes the writer gate, so its notes are accepted. */
  lemma AddWriterOpensGate(st: State, address: string, name: string, isValid: string -> bool,
                           topic: string, subTopic: string, noteName: string, noteType: NoteType, note: string)
    requires isValid(address)
    ensures var after := ExecAddWriter(st, address, name, isValid).value;
      && AssertIsWriter(after, address) == Ok(())
      && ExecAddNote(after, address, topic, subTopic, noteName, noteType, note).Ok?
  {
  }

  /** A removed writer fails the writer gate, so its notes are refused with NotFound. */
  lemma RmWriterClosesGate(st: State, address: string, isValid: string -> bool,
                           topic: string, subTopic: string, noteName: string, noteType: NoteType, note: string)
    requires isValid(address)
    ensures var after := ExecRmWriter(st, address, isValid).value;
      && AssertIsWriter(after, address) == Err(Std(NotFound))
      && ExecAddNote(after, address, topic, subTopic, noteName, noteType, note) == Err(Std(NotFound))
  {
  }

  /** As written, removing a valid address that is not a writer succeeds and changes nothing. */
  lemma RmWriterIgnoresMissing(st: State, address: string, isValid: string -> bool)
    requires isValid(address) && address !in st.writers
    ensures ExecRmWriter(st, address, isValid) == Ok(st)
  {
    assert st.writers - {address} == st.writers;
  }

  /** The corrected removal reports a missing writer, and otherwise does what the written one does. */
  lemma RmWriterCheckedReports(st: State, address: string, isValid: string -> bool)
    requires isValid(address)
    ensures address !in st.writers ==>
      && ExecRmWriterChecked(st, address, isValid) == Err(AddressDoesNotExist(address))
      && ExecRmWriter(st, address, isValid).Ok?
    ensures address in st.writers ==> ExecRmWriterChecked(st, address, isValid) == ExecRmWriter(st, address, isValid)
  {
  }

  // ---------------------------------------------------------------------------
  // The store, updated in place

  /** The contract's storage: WRITER, TOPICSMAP and the primary tables of the two indexed maps. */
  class Store {
    var owner: string
    var writers: map<string, string>
    var topics: map<string, string>
    var subTopics: map<string, SubTopicKey>
    var notes: map<string, NoteEntry>

    /** The store's contents as a value. */
    function View(): State
      reads this
    {
      State(owner, writers, topics, subTopics, notes)
    }

    /** Empty tables under an owner. */
    constructor (owner: string)
      ensures View() == State(owner, map[], map[], map[], map[])
      ensures Inv(View())
    {
      this.owner := owner;
      writers := map[];
      topics := map[];
      subTopics := map[];
      notes := map[];
    }

    /** `exec_add_note`, saving the three rows one after another. */
    method AddNote(sender: string, topic: string, subTopic: string, name: string, noteType: NoteType, note: string)
      returns (r: Result<(), ContractError>)
      modifies this
      ensures r == Status(ExecAddNote(old(View()), sender, topic, subTopic, name, noteType, note))
      ensures View() == Commit(old(View()), ExecAddNote(old(View()), sender, topic, subTopic, name, noteType, note))
      ensures old(Inv(View())) ==> Inv(View())
    {
      if Inv(View()) {
        AddNotePreservesInv(View(), sender, topic, subTopic, name, noteType, note);
      }
      var gate := AssertIsWriter(View(), sender);
      if gate.Err? {
        return Err(gate.error);
      }
      var subTopicKey := SubTopicKey(topic, subTopic);
      var noteKey := NoteKey(topic, subTopic, name);
      topics := topics[topic := topic];
      subTopics := subTopics[SubTopicKeyToString(subTopicKey) := subTopicKey];
      notes := notes[NoteKeyToString(noteKey) := NoteEntry(sender, topic, subTopic, name, noteType, note)];
      r := Ok(());
    }

    /** `exec_rm_note`: gate, load, then remove. */
    method RmNote(sender: string, topic: string, subTopic: string, name: string)
      returns (r: Result<(), ContractError>)
      modifies this
      ensures r == Status(ExecRmNote(old(View()), sender, topic, subTopic, name))
      ensures View() == Commit(old(View()), ExecRmNote(old(View()), sender, topic, subTopic, name))
      ensures old(Inv(View())) ==> Inv(View())
    {
      if Inv(View()) {
        RemovalsPreserveInv(View(), sender, topic, subTopic, name);
      }
      var gate := AssertIsWriter(View(), sender);
      if gate.Err? {
        return Err(gate.error);
      }
      var key := NoteKeyToString(NoteKey(topic, subTopic, name));
      if key !in notes {
        return Err(Std(NotFound));
      }
      notes := notes - {key};
      r := Ok(());
    }

    /** `exec_rm_sub_topic`: gate, then remove without looking. */
    method RmSubTopic(sender: string, topic: string, subTopic: string)
      returns (r: Result<(), ContractError>)
      modifies this
      ensures r == Status(ExecRmSubTopic(old(View()), sender, topic, subTopic))
      ensures View() == Commit(old(View()), ExecRmSubTopic(old(View()), sender, topic, subTopic))
      ensures old(Inv(View())) ==> Inv(View())
    {
      if Inv(View()) {
        RemovalsPreserveInv(View(), sender, topic, subTopic, "");
      }
      var gate := AssertIsWriter(View(), sender);
      if gate.Err? {
        return Err(gate.error);
      }
      subTopics := subTopics - {SubTopicKeyToString(SubTopicKey(topic, subTopic))};
      r := Ok(());
    }

    /** `exec_rm_topic`: gate, then remove without looking. */
    method RmTopic(sender: string, topic: string)
      returns (r: Result<(), ContractError>)
      modifies this
      ensures r == Status(ExecRmTopic(old(View()), sender, topic))
      ensures View() == Commit(old(View()), ExecRmTopic(old(View()), sender, topic))
      ensures old(Inv(View())) ==> Inv(View())
    {
      if Inv(View()) {
        RemovalsPreserveInv(View(), sender, topic, "", "");
      }
      var gate := AssertIsWriter(View(), sender);
      if gate.Err? {
        return Err(gate.error);
      }
      topics := topics - {topic};
      r := Ok(());
    }

    /** `exec_add_writer`: validate, then save. */
    method AddWriter(address: string, name: string, isValid: string -> bool)
      returns (r: Result<(), ContractError>)
      modifies this
      ensures r == Status(ExecAddWriter(old(View()), address, name, isValid))
      ensures View() == Commit(old(View()), ExecAddWriter(old(View()), address, name, isValid))
      ensures old(Inv(View())) ==> Inv(View())
    {
      if !isValid(address) {
        return Err(Std(InvalidAddress(address)));
      }
      writers := writers[address := name];
      r := Ok(());
    }

    /** `exec_rm_writer` as written: validate, then remove; the lookup's answer is never used, so it is left out. */
    method RmWriter(address: string, isValid: string -> bool)
      returns (r: Result<(), ContractError>)
      modifies this
      ensures r == Status(ExecRmWriter(old(View()), address, isValid))
      ensures View() == Commit(old(View()), ExecRmWriter(old(View()), address, isValid))
      ensures old(Inv(View())) ==> Inv(View())
    {
      if !isValid(address) {
        return Err(Std(InvalidAddress(address)));
      }
      writers := writers - {address};
      r := Ok(());
    }
  }
}
