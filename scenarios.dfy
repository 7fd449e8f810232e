/**
  The two usage scenarios of the contract's test suite
  (contracts/pfc-notes-contract/src/testing/tests.rs), replayed on the model
  with every outcome stated exactly.
*/
module Scenarios {
  import opened Wrappers
  import opened Errors
  import opened Order
  import opened Codec
  import opened Storage
  import opened Pagination
  import opened Scan
  import opened Queries
  import opened Exec
  import opened Contract

  // ---------------------------------------------------------------------------
  // Pages of up to two keys

  lemma PageIsEmpty(keys: set<string>, start: Option<string>, limit: nat)
    requires Eligible(keys, start) == {}
    ensures Page(keys, start, limit) == []
  {
    PageProperties(keys, start, limit);
  }

  lemma PageIsOne(keys: set<string>, start: Option<string>, limit: nat, a: string)
    requires Eligible(keys, start) == {a} && limit >= 1
    ensures Page(keys, start, limit) == [a]
  {
    PageProperties(keys, start, limit);
    var r := Page(keys, start, limit);
    assert r[0] in Eligible(keys, start);
  }

  lemma PageIsTwo(keys: set<string>, start: Option<string>, limit: nat, a: string, b: string)
    requires Eligible(keys, start) == {a, b} && Less(a, b) && limit >= 2
    ensures Page(keys, start, limit) == [a, b]
  {
    LessIrreflexive(a);
    PageProperties(keys, start, limit);
    var r := Page(keys, start, limit);
    assert |{a, b}| == 2;
    assert r[0] in Eligible(keys, start) && r[1] in Eligible(keys, start);
    if r[0] == b {
      LessAsymmetric(a, b);
    }
  }

  // ---------------------------------------------------------------------------
  // The writers scenario

  const pie := NoteWriter("pie", "pie name")
  const latte := NoteWriter("latte", "spiced")

  /** The store `instantiate` leaves for owner "pumpkin" and writers "pie" then "latte". */
  function Seeded(): State
  {
    State("pumpkin", map["pie" := "pie name", "latte" := "spiced"], map[], map[], map[])
  }

  lemma SeededByInstantiate()
    ensures WritersFrom([pie, latte]) == Seeded().writers
  {
    assert [pie, latte][..1] == [pie];
    assert [pie][..0] == [];
    assert WritersFrom([pie]) == map["pie" := "pie name"];
  }

  /** Listing the writers gives both, "latte" before "pie". */
  lemma WritersListed(isValid: string -> bool)
    ensures QueryWriter(Seeded(), None, None, isValid) == Ok([latte, pie])
  {
    var keys := Seeded().writers.Keys;
    assert Less("latte", "pie");
    assert Eligible(keys, None) == {"latte", "pie"};
    PageIsTwo(keys, None, PageSize(None), "latte", "pie");
    var ks := Page(keys, None, PageSize(None));
    assert ks == ["latte", "pie"];
    assert Seeded().writers["latte"] == "spiced";
    assert Seeded().writers["pie"] == "pie name";
    var r := QueryWriter(Seeded(), None, None, isValid).value;
    assert |r| == 2;
    assert r[0] == latte;
    assert r[1] == pie;
    assert r == [latte, pie];
  }

  /** Starting after "latte" gives only "pie". */
  lemma WritersAfterLatte(isValid: string -> bool)
    requires isValid("latte")
    ensures QueryWriter(Seeded(), Some("latte"), None, isValid) == Ok([pie])
  {
    var keys := Seeded().writers.Keys;
    assert Less("latte", "pie");
    LessIrreflexive("latte");
    assert Eligible(keys, Some("latte")) == {"pie"};
    PageIsOne(keys, Some("latte"), PageSize(None), "pie");
    var r := QueryWriter(Seeded(), Some("latte"), None, isValid).value;
    assert |r| == 1 && r[0] == pie;
    assert r == [pie];
  }

  /** The writers left once "pie" is removed. */
  function PieRemoved(isValid: string -> bool): State
    requires isValid("pie")
  {
    ExecRmWriter(Seeded(), "pie", isValid).value
  }

  /** After "pie" is removed, only "latte" is listed. */
  lemma WritersAfterRemoval(isValid: string -> bool)
    requires isValid("pie")
    ensures QueryWriter(PieRemoved(isValid), None, None, isValid) == Ok([latte])
  {
    var st := PieRemoved(isValid);
    assert st.writers.Keys == {"latte"};
    assert Eligible(st.writers.Keys, None) == {"latte"};
    PageIsOne(st.writers.Keys, None, PageSize(None), "latte");
    var r := QueryWriter(st, None, None, isValid).value;
    assert |r| == 1 && r[0] == latte;
    assert r == [latte];
  }

  /** When "bread" is then added, it is listed before "latte". */
  lemma WritersAfterAdding(isValid: string -> bool)
    requires isValid("pie") && isValid("bread")
    ensures var added := ExecAddWriter(PieRemoved(isValid), "bread", "also tastes yuk", isValid);
      && added.Ok?
      && QueryWriter(added.value, None, None, isValid) == Ok([NoteWriter("bread", "also tastes yuk"), latte])
  {
    var st := ExecAddWriter(PieRemoved(isValid), "bread", "also tastes yuk", isValid).value;
    assert st.writers.Keys == {"latte", "bread"};
    assert Less("bread", "latte");
    assert Eligible(st.writers.Keys, None) == {"bread", "latte"};
    PageIsTwo(st.writers.Keys, None, PageSize(None), "bread", "latte");
    var r := QueryWriter(st, None, None, isValid).value;
    assert |r| == 2 && r[0] == NoteWriter("bread", "also tastes yuk") && r[1] == latte;
    assert r == [NoteWriter("bread", "also tastes yuk"), latte];
  }

  // ---------------------------------------------------------------------------
  // The notes scenario

  const first := NoteEntry("pie", "topic", "sub", "name", Ipfs, "ipfs://foobar")
  const second := NoteEntry("pie", "topic", "sub2", "name", String, "string")
  const third := NoteEntry("pie", "topic2", "sub", "name", Json, "{\"foo\":\"bar\"}")
  const fourth := NoteEntry("pie", "topic2", "sub", "name2", String, "A String walks into a bar")

  /**
    Shorthands for the storage keys the scenario writes under: the statements
    below name each key many times, and the codec's own spelling of it would
    double their length.
  */
  function SubKey(topic: string, subTopic: string): string
  {
    SubTopicKeyToString(SubTopicKey(topic, subTopic))
  }

  function KeyOf(e: NoteEntry): string
  {
    NoteKeyToString(EntryKey(e))
  }

  /** The scenario's keys are pairwise different. */
  lemma ScenarioKeysDistinct()
    ensures SubKey("topic", "sub") != SubKey("topic", "sub2")
    ensures SubKey("topic", "sub") != SubKey("topic2", "sub")
    ensures SubKey("topic", "sub2") != SubKey("topic2", "sub")
    ensures KeyOf(first) != KeyOf(second) && KeyOf(first) != KeyOf(third) && KeyOf(first) != KeyOf(fourth)
    ensures KeyOf(second) != KeyOf(third) && KeyOf(second) != KeyOf(fourth) && KeyOf(third) != KeyOf(fourth)
  {
    SubTopicKeyInjectiveWithoutSeparators(SubTopicKey("topic", "sub"), SubTopicKey("topic", "sub2"));
    SubTopicKeyInjectiveWithoutSeparators(SubTopicKey("topic", "sub"), SubTopicKey("topic2", "sub"));
    SubTopicKeyInjectiveWithoutSeparators(SubTopicKey("topic", "sub2"), SubTopicKey("topic2", "sub"));
    NoteKeyInjectiveWithoutSeparators(EntryKey(first), EntryKey(second));
    NoteKeyInjectiveWithoutSeparators(EntryKey(first), EntryKey(third));
    NoteKeyInjectiveWithoutSeparators(EntryKey(first), EntryKey(fourth));
    NoteKeyInjectiveWithoutSeparators(EntryKey(second), EntryKey(third));
    NoteKeyInjectiveWithoutSeparators(EntryKey(second), EntryKey(fourth));
    NoteKeyInjectiveWithoutSeparators(EntryKey(third), EntryKey(fourth));
  }

  /** The store after the first note: one topic, one subtopic, one note. */
  function OneNote(): State
  {
    Seeded().(topics := map["topic" := "topic"],
              subTopics := map[SubKey("topic", "sub") := SubTopicKey("topic", "sub")],
              notes := map[KeyOf(first) := first])
  }

  /** The store after all four notes of the scenario. */
  function FourNotes(): State
  {
    Seeded().(topics := map["topic" := "topic", "topic2" := "topic2"],
              subTopics := map[SubKey("topic", "sub") := SubTopicKey("topic", "sub"),
                               SubKey("topic", "sub2") := SubTopicKey("topic", "sub2"),
                               SubKey("topic2", "sub") := SubTopicKey("topic2", "sub")],
              notes := map[KeyOf(first) := first, KeyOf(second) := second,
                           KeyOf(third) := third, KeyOf(fourth) := fourth])
  }

  /** "pie" adds the first note, then the other three, reaching the stores above. */
  lemma NotesAdded()
    ensures ExecAddNote(Seeded(), "pie", "topic", "sub", "name", Ipfs, "ipfs://foobar") == Ok(OneNote())
    ensures var st2 := ExecAddNote(OneNote(), "pie", "topic", "sub2", "name", String, "string").value;
            var st3 := ExecAddNote(st2, "pie", "topic2", "sub", "name", Json, "{\"foo\":\"bar\"}").value;
      ExecAddNote(st3, "pie", "topic2", "sub", "name2", String, "A String walks into a bar") == Ok(FourNotes())
  {
    var st2 := ExecAddNote(OneNote(), "pie", "topic", "sub2", "name", String, "string").value;
    var st3 := ExecAddNote(st2, "pie", "topic2", "sub", "name", Json, "{\"foo\":\"bar\"}").value;
    var st4 := ExecAddNote(st3, "pie", "topic2", "sub", "name2", String, "A String walks into a bar").value;
    assert st4.topics == FourNotes().topics;
    assert st4.subTopics == FourNotes().subTopics;
    assert st4.notes == FourNotes().notes;
  }

  /** An address off the allowlist can neither add nor remove a note. */
  lemma StrangerIsRefused()
    ensures ExecAddNote(Seeded(), "nope", "topic", "sub", "name", Ipfs, "ipfs://foobar") == Err(Std(NotFound))
    ensures ExecRmNote(Seeded(), "nope", "topic", "sub", "name") == Err(Std(NotFound))
  {
  }

  /** The note "pie" adds is found under its own names and under no neighbouring ones. */
  lemma FirstNoteFound()
    ensures QueryNote(OneNote(), "topic", "sub", "name") == Ok(first)
    ensures QueryNote(OneNote(), "topic", "sub", "Nope") == Err(NotFound)
    ensures QueryNote(OneNote(), "topic", "nope", "name") == Err(NotFound)
  {
    NoteKeyInjectiveWithoutSeparators(NoteKey("topic", "sub", "Nope"), EntryKey(first));
    NoteKeyInjectiveWithoutSeparators(NoteKey("topic", "nope", "name"), EntryKey(first));
  }

  /** Listing all topics of the four notes gives "topic" then "topic2". */
  lemma TopicsListed()
    ensures QueryTopics(FourNotes(), None, None) == ["topic", "topic2"]
  {
    var keys := FourNotes().topics.Keys;
    assert Less("topic", "topic2");
    assert Eligible(keys, None) == {"topic", "topic2"};
    PageIsTwo(keys, None, PageSize(None), "topic", "topic2");
  }

  /** Starting after "topic" gives only "topic2". */
  lemma TopicsAfterTopic()
    ensures QueryTopics(FourNotes(), Some("topic"), None) == ["topic2"]
  {
    var keys := FourNotes().topics.Keys;
    assert Less("topic", "topic2");
    LessIrreflexive("topic");
    assert Eligible(keys, Some("topic")) == {"topic2"};
    PageIsOne(keys, Some("topic"), PageSize(None), "topic2");
  }

  /** Starting after "topic2" gives nothing. */
  lemma TopicsAfterTopic2()
    ensures QueryTopics(FourNotes(), Some("topic2"), None) == []
  {
    var keys := FourNotes().topics.Keys;
    LessIrreflexive("topic2");
    LessAsymmetric("topic", "topic2");
    assert Eligible(keys, Some("topic2")) == {};
    PageIsEmpty(keys, Some("topic2"), PageSize(None));
  }

  /** The subtopic records filed under "topic". */
  lemma ScopeOfTopic()
    ensures SubTopicScope(FourNotes(), "topic") == {SubKey("topic", "sub"), SubKey("topic", "sub2")}
    ensures Less(SubKey("topic", "sub"), SubKey("topic", "sub2"))
  {
    ScenarioKeysDistinct();
    SubTopicKeyOrderFollowsSubTopic("topic", "sub", "sub2");
    assert Less("sub", "sub2");
  }

  /** The first page of subtopic keys under "topic". */
  lemma SubTopicPageOfTopic()
    ensures Page(SubTopicScope(FourNotes(), "topic"), None, PageSize(None)) == [SubKey("topic", "sub"), SubKey("topic", "sub2")]
  {
    var scope := SubTopicScope(FourNotes(), "topic");
    ScopeOfTopic();
    assert Eligible(scope, None) == scope;
    PageIsTwo(scope, None, PageSize(None), SubKey("topic", "sub"), SubKey("topic", "sub2"));
  }

  /** Under "topic" the subtopics are "sub" then "sub2". */
  lemma SubTopicsListed()
    ensures QuerySubTopics(FourNotes(), "topic", None, None) == [SubTopicKey("topic", "sub"), SubTopicKey("topic", "sub2")]
  {
    var a, b := SubKey("topic", "sub"), SubKey("topic", "sub2");
    SubTopicPageOfTopic();
    assert QuerySubTopics(FourNotes(), "topic", None, None) == Rows(FourNotes().subTopics, [a, b]);
    assert a != b && a != SubKey("topic2", "sub") && b != SubKey("topic2", "sub") by { ScenarioKeysDistinct(); }
  }

  /** After the "topic_sub" record, only the "topic_sub2" record is left under "topic". */
  lemma ScopeAfterSub()
    ensures Eligible(SubTopicScope(FourNotes(), "topic"), Some(SubKey("topic", "sub"))) == {SubKey("topic", "sub2")}
  {
    ScopeOfTopic();
    LessIrreflexive(SubKey("topic", "sub"));
  }

  /** Under "topic" and after "sub", only "sub2". */
  lemma SubTopicsAfterSub()
    ensures QuerySubTopics(FourNotes(), "topic", Some("sub"), None) == [SubTopicKey("topic", "sub2")]
  {
    var scope := SubTopicScope(FourNotes(), "topic");
    ScopeAfterSub();
    PageIsOne(scope, Some(SubKey("topic", "sub")), PageSize(None), SubKey("topic", "sub2"));
    var r := QuerySubTopics(FourNotes(), "topic", Some("sub"), None);
    assert r == [SubTopicKey("topic", "sub2")];
  }

  /** Under "topic2", only "sub". */
  lemma SubTopicsOfTopic2()
    ensures QuerySubTopics(FourNotes(), "topic2", None, None) == [SubTopicKey("topic2", "sub")]
  {
    var scope := SubTopicScope(FourNotes(), "topic2");
    ScenarioKeysDistinct();
    assert scope == {SubKey("topic2", "sub")};
    assert Eligible(scope, None) == scope;
    PageIsOne(scope, None, PageSize(None), SubKey("topic2", "sub"));
    var r := QuerySubTopics(FourNotes(), "topic2", None, None);
    assert r == [SubTopicKey("topic2", "sub")];
  }

  /** As written, listing the entries of "topic"/"sub" comes back empty, although a note is stored there. */
  lemma EntriesScenarioAsWritten()
    ensures QueryNote(FourNotes(), "topic", "sub", "name") == Ok(first)
    ensures QueryEntries(FourNotes(), "topic", "sub", None, None) == []
  {
    var scope := NoteScope(FourNotes(), "topic" + "_" + "sub");
    ScenarioKeysDistinct();
    SeparatorsDiffer("topic", "sub", "sub");
    assert scope == {};
    PageIsEmpty(scope, EntryCursor("topic", "sub", None), PageSize(None));
  }

  /** Under "topic/sub" the note index holds only the first note. */
  lemma ScopeOfTopicSub()
    ensures NoteScope(FourNotes(), "topic" + "/" + "sub") == {KeyOf(first)}
  {
    ScenarioKeysDistinct();
  }

  /** The corrected listing returns that note. */
  lemma EntriesScenarioIntended()
    ensures QueryEntriesIntended(FourNotes(), "topic", "sub", None, None) == [first]
  {
    var scope := NoteScope(FourNotes(), "topic" + "/" + "sub");
    ScopeOfTopicSub();
    assert Eligible(scope, None) == scope;
    PageIsOne(scope, None, PageSize(None), KeyOf(first));
    var r := QueryEntriesIntended(FourNotes(), "topic", "sub", None, None);
    assert r == [first];
  }
}
