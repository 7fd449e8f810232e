/**
  The entry points (contracts/pfc-notes-contract/src/lib.rs): `instantiate`
  seeds the owner and the writer allowlist, `execute` routes each message to
  its handler behind the owner gate for writer management, and `query` routes
  each query to its query function.
*/
module Contract {
  import opened Wrappers
  import opened Errors
  import opened Codec
  import opened Storage
  import opened Queries
  import opened Exec

  // ---------------------------------------------------------------------------
  // instantiate

  /** WRITER after saving each writer of the list in turn: a later address overwrites an earlier one. */
  function WritersFrom(ws: seq<NoteWriter>): map<string, string>
  {
    if ws == [] then map[]
    else WritersFrom(ws[..|ws| - 1])[ws[|ws| - 1].address := ws[|ws| - 1].name]
  }

  /** Exactly the listed addresses become writers. */
  lemma {:induction false} WritersFromKeys(ws: seq<NoteWriter>)
    ensures forall a :: a in WritersFrom(ws) <==> exists i :: 0 <= i < |ws| && ws[i].address == a
  {
    if ws != [] {
      var init := ws[..|ws| - 1];
      WritersFromKeys(init);
      forall a ensures a in WritersFrom(ws) <==> exists i :: 0 <= i < |ws| && ws[i].address == a {
        if a in WritersFrom(init) {
          var i :| 0 <= i < |init| && init[i].address == a;
          assert ws[i].address == a;
        }
        if exists i :: 0 <= i < |ws| && ws[i].address == a {
          var i :| 0 <= i < |ws| && ws[i].address == a;
          if i < |ws| - 1 {
            assert init[i].address == a;
          }
        }
      }
    }
  }

  /** Each address is named by its last occurrence in the list. */
  lemma {:induction false} WritersFromLastWins(ws: seq<NoteWriter>, i: nat)
    requires i < |ws|
    requires forall j :: i < j < |ws| ==> ws[j].address != ws[i].address
    ensures ws[i].address in WritersFrom(ws) && WritersFrom(ws)[ws[i].address] == ws[i].name
  {
    if i < |ws| - 1 {
      var init := ws[..|ws| - 1];
      assert init[i] == ws[i];
      WritersFromLastWins(init, i);
    }
  }

  /**
    `instantiate`: record the owner, then validate and save each writer in
    order; the first address that fails validation aborts the whole call.
  */
  method Instantiate(msg: InstantiateMsg, isValid: string -> bool) returns (r: Result<Store, StdError>)
    ensures r.Err? <==> !isValid(msg.owner) || exists i :: 0 <= i < |msg.writers| && !isValid(msg.writers[i].address)
    ensures r.Err? && !isValid(msg.owner) ==> r.error == InvalidAddress(msg.owner)
    ensures r.Err? && isValid(msg.owner) ==>
      exists i :: && 0 <= i < |msg.writers| && !isValid(msg.writers[i].address)
                  && (forall j :: 0 <= j < i ==> isValid(msg.writers[j].address))
                  && r.error == InvalidAddress(msg.writers[i].address)
    ensures r.Ok? ==> fresh(r.value) && r.value.View() == State(msg.owner, WritersFrom(msg.writers), map[], map[], map[])
    ensures r.Ok? ==> Inv(r.value.View())
  {
    if !isValid(msg.owner) {
      return Err(InvalidAddress(msg.owner));
    }
    var store := new Store(msg.owner);
    var i := 0;
    while i < |msg.writers|
      invariant 0 <= i <= |msg.writers|
      invariant forall j :: 0 <= j < i ==> isValid(msg.writers[j].address)
      invariant store.View() == State(msg.owner, WritersFrom(msg.writers[..i]), map[], map[], map[])
    {
      var writer := msg.writers[i];
      if !isValid(writer.address) {
        return Err(InvalidAddress(writer.address));
      }
      store.writers := store.writers[writer.address := writer.name];
      assert msg.writers[..i + 1][..i] == msg.writers[..i];
      i := i + 1;
    }
    assert msg.writers[..i] == msg.writers;
    return Ok(store);
  }

  // ---------------------------------------------------------------------------
  // execute

  /** `cw_ownable::assert_owner`: only the recorded owner passes. */
  function AssertOwner(st: State, sender: string): (r: Result<(), ContractError>)
    ensures r.Ok? <==> sender == st.owner
    ensures r.Err? ==> r.error == ContractError.Ownership(NotOwner)
  {
    if sender == st.owner then Ok(()) else Err(ContractError.Ownership(NotOwner))
  }

  /** `execute`: the outcome of one message sent by `sender`. */
  function Step(st: State, sender: string, msg: ExecuteMsg, isValid: string -> bool): (r: Outcome)
    ensures (msg.AddWriter? || msg.RemoveWriter?) && sender != st.owner ==> r == Err(ContractError.Ownership(NotOwner))
    ensures !(msg.AddWriter? || msg.RemoveWriter?) && sender !in st.writers ==> r == Err(Std(NotFound))
    ensures r.Ok? ==> r.value.owner == st.owner
  {
    match msg
    case AddWriter(address, name) =>
      var gate := AssertOwner(st, sender);
      if gate.Err? then Err(gate.error) else ExecAddWriter(st, address, name, isValid)
    case RemoveWriter(address) =>
      var gate := AssertOwner(st, sender);
      if gate.Err? then Err(gate.error) else ExecRmWriter(st, address, isValid)
    case AddNote(topic, subTopic, name, noteType, note) =>
      ExecAddNote(st, sender, topic, subTopic, name, noteType, note)
    case RemoveNote(topic, subTopic, name) =>
      ExecRmNote(st, sender, topic, subTopic, name)
    case RemoveSubTopic(topic, subTopic) =>
      ExecRmSubTopic(st, sender, topic, subTopic)
    case RemoveTopic(topic) =>
      ExecRmTopic(st, sender, topic)
  }

  /** Every message keeps a consistent store consistent, whether it succeeds or fails. */
  lemma StepPreservesInv(st: State, sender: string, msg: ExecuteMsg, isValid: string -> bool)
    requires Inv(st)
    ensures Inv(Commit(st, Step(st, sender, msg, isValid)))
  {
    match msg
    case AddNote(topic, subTopic, name, noteType, note) =>
      AddNotePreservesInv(st, sender, topic, subTopic, name, noteType, note);
    case RemoveNote(topic, subTopic, name) =>
      RemovalsPreserveInv(st, sender, topic, subTopic, name);
    case RemoveSubTopic(topic, subTopic) =>
      RemovalsPreserveInv(st, sender, topic, subTopic, "");
    case RemoveTopic(topic) =>
      RemovalsPreserveInv(st, sender, topic, "", "");
    case AddWriter(_, _) =>
    case RemoveWriter(_) =>
  }

  /**
    The owner manages writers but is not thereby a writer: an owner who is
    not on the allowlist cannot add a note.
  */
  lemma OwnerIsNotAWriter(st: State, msg: ExecuteMsg, isValid: string -> bool)
    requires msg.AddNote? && st.owner !in st.writers
    ensures Step(st, st.owner, msg, isValid) == Err(Std(NotFound))
  {
  }

  /** Writer management by the owner: adding lets the address write, removing stops it. */
  lemma OwnerManagesWriters(st: State, address: string, name: string, isValid: string -> bool, note: ExecuteMsg)
    requires isValid(address) && note.AddNote?
    ensures var added := Step(st, st.owner, AddWriter(address, name), isValid);
      && added.Ok?
      && Step(added.value, address, note, isValid).Ok?
    ensures var removed := Step(st, st.owner, RemoveWriter(address), isValid);
      && removed.Ok?
      && Step(removed.value, address, note, isValid) == Err(Std(NotFound))
  {
  }

  /** `execute` on the stored state: dispatch to the handler methods. */
  method Execute(store: Store, sender: string, msg: ExecuteMsg, isValid: string -> bool)
    returns (r: Result<(), ContractError>)
    modifies store
    ensures r == Status(Step(old(store.View()), sender, msg, isValid))
    ensures store.View() == Commit(old(store.View()), Step(old(store.View()), sender, msg, isValid))
  {
    match msg
    case AddWriter(address, name) =>
      var gate := AssertOwner(store.View(), sender);
      if gate.Err? {
        return Err(gate.error);
      }
      r := store.AddWriter(address, name, isValid);
    case RemoveWriter(address) =>
      var gate := AssertOwner(store.View(), sender);
      if gate.Err? {
        return Err(gate.error);
      }
      r := store.RmWriter(address, isValid);
    case AddNote(topic, subTopic, name, noteType, note) =>
      r := store.AddNote(sender, topic, subTopic, name, noteType, note);
    case RemoveNote(topic, subTopic, name) =>
      r := store.RmNote(sender, topic, subTopic, name);
    case RemoveSubTopic(topic, subTopic) =>
      r := store.RmSubTopic(sender, topic, subTopic);
    case RemoveTopic(topic) =>
      r := store.RmTopic(sender, topic);
  }

  // ---------------------------------------------------------------------------
  // query

  /** What each query answers with, before serialisation. */
  datatype QueryResponse =
    | OwnershipResponse(owner: string)
    | WritersResponse(writers: seq<NoteWriter>)
    | TopicsResponse(topics: seq<string>)
    | SubTopicsResponse(subTopics: seq<SubTopicKey>)
    | EntriesResponse(entries: seq<NoteEntry>)
    | NoteEntryResponse(entry: NoteEntry)

  /** `query`: each query message answered by its query function. */
  ghost function Query(st: State, msg: QueryMsg, isValid: string -> bool): (r: Result<QueryResponse, StdError>)
    ensures r.Ok? ==> match msg
      case Ownership => r.value == OwnershipResponse(st.owner)
      case Writers(_, _) => r.value.WritersResponse? && |r.value.writers| <= MAX_LIMIT
      case Topics(_, _) => r.value.TopicsResponse? && |r.value.topics| <= MAX_LIMIT
      case SubTopics(_, _, _) => r.value.SubTopicsResponse? && |r.value.subTopics| <= MAX_LIMIT
      case Entries(_, _, _, _) => r.value.EntriesResponse? && |r.value.entries| <= MAX_LIMIT
      case Note(_, _, _) => r.value.NoteEntryResponse?
    ensures r.Err? <==> match msg
      case Writers(startAfter, _) => startAfter.Some? && !isValid(startAfter.value)
      case Note(topic, subTopic, name) => NoteKeyToString(NoteKey(topic, subTopic, name)) !in st.notes
      case _ => false
  {
    match msg
    case Ownership => Ok(OwnershipResponse(st.owner))
    case Writers(startAfter, limit) =>
      var page := QueryWriter(st, startAfter, limit, isValid);
      if page.Err? then Err(page.error) else Ok(WritersResponse(page.value))
    case Topics(startAfter, limit) => Ok(TopicsResponse(QueryTopics(st, startAfter, limit)))
    case SubTopics(topic, startAfter, limit) => Ok(SubTopicsResponse(QuerySubTopics(st, topic, startAfter, limit)))
    case Entries(topic, subTopic, startAfter, limit) =>
      Ok(EntriesResponse(QueryEntries(st, topic, subTopic, startAfter, limit)))
    case Note(topic, subTopic, name) =>
      var found := QueryNote(st, topic, subTopic, name);
      if found.Err? then Err(found.error) else Ok(NoteEntryResponse(found.value))
  }
}
