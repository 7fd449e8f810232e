/**
  The shared types of the notes registry and its key encodings
  (packages/pfc-notes/src/lib.rs): the note type and its names, the two
  composite keys with their flat string forms, the stored records and the
  messages of the three entry points.
*/
module Codec {
  import opened Wrappers
  import opened Order

  datatype NoteType = Json | String | Ipfs

  /** The name `to_string` gives a note type. */
  function NoteTypeToString(t: NoteType): string
  {
    match t
    case Ipfs => "IPFS"
    case String => "String"
    case Json => "Json"
  }

  /** `from_str`: only the exact, case-sensitive names are accepted. */
  function NoteTypeFromStr(s: string): Option<NoteType>
  {
    if s == "IPFS" then Some(Ipfs)
    else if s == "JSON" then Some(Json)
    else if s == "String" then Some(String)
    else None
  }

  lemma NoteTypeFromStrAccepts(s: string)
    ensures NoteTypeFromStr(s).Some? <==> s == "IPFS" || s == "JSON" || s == "String"
    ensures NoteTypeFromStr(s) == Some(Ipfs) <==> s == "IPFS"
    ensures NoteTypeFromStr(s) == Some(Json) <==> s == "JSON"
    ensures NoteTypeFromStr(s) == Some(String) <==> s == "String"
  {
  }

  /** Parsing undoes naming for two of the three note types ... */
  lemma NoteTypeRoundTripIpfsString(t: NoteType)
    requires t != Json
    ensures NoteTypeFromStr(NoteTypeToString(t)) == Some(t)
  {
  }

  /** ... but not for `Json`: it is named "Json" and parsed only from "JSON". */
  lemma NoteTypeJsonDoesNotRoundTrip()
    ensures NoteTypeToString(Json) == "Json"
    ensures NoteTypeFromStr(NoteTypeToString(Json)) == None
  {
  }

  /** The evidently intended naming: the same spellings `from_str` accepts. */
  function NoteTypeToStringIntended(t: NoteType): (s: string)
    ensures NoteTypeFromStr(s) == Some(t)
  {
    match t
    case Ipfs => "IPFS"
    case String => "String"
    case Json => "JSON"
  }

  /** With the intended naming, parsing and naming are inverse in both directions. */
  lemma NoteTypeIntendedRoundTrip(t: NoteType, s: string)
    ensures NoteTypeFromStr(s) == Some(t) <==> NoteTypeToStringIntended(t) == s
  {
  }

  datatype NoteKey = NoteKey(topic: string, subTopic: string, name: string)

  datatype SubTopicKey = SubTopicKey(topic: string, subTopic: string)

  /** `NoteKey::to_string`: "{topic}/{sub_topic}:{name}", separators not escaped. */
  function NoteKeyToString(k: NoteKey): string
  {
    k.topic + "/" + k.subTopic + ":" + k.name
  }

  /** `SubTopicKey::to_string`: "{topic}_{sub_topic}", separator not escaped. */
  function SubTopicKeyToString(k: SubTopicKey): string
  {
    k.topic + "_" + k.subTopic
  }

  datatype NoteEntry = NoteEntry(
    writer: string,
    topic: string,
    subTopic: string,
    name: string,
    noteType: NoteType,
    note: string)

  /** The key an entry is stored under is built from the entry's own fields. */
  function EntryKey(e: NoteEntry): NoteKey
  {
    NoteKey(e.topic, e.subTopic, e.name)
  }

  datatype NoteWriter = NoteWriter(address: string, name: string)

  datatype InstantiateMsg = InstantiateMsg(owner: string, writers: seq<NoteWriter>)

  datatype ExecuteMsg =
    | AddWriter(address: string, name: string)
    | RemoveWriter(address: string)
    | AddNote(topic: string, subTopic: string, name: string, noteType: NoteType, note: string)
    | RemoveNote(topic: string, subTopic: string, name: string)
    | RemoveSubTopic(topic: string, subTopic: string)
    | RemoveTopic(topic: string)

  /** A 32-bit unsigned page limit. */
  type U32 = x: int | 0 <= x < 0x1_0000_0000

  datatype QueryMsg =
    | Ownership
    | Writers(startAfter: Option<string>, limit: Option<U32>)
    | Topics(startAfter: Option<string>, limit: Option<U32>)
    | SubTopics(topic: string, startAfter: Option<string>, limit: Option<U32>)
    | Entries(topic: string, subTopic: string, startAfter: Option<string>, limit: Option<U32>)
    | Note(topic: string, subTopic: string, name: string)

  // ---------------------------------------------------------------------------
  // Decoding the composite keys: the decoders invert the encodings when the
  // components hold no separator, which shows when the encodings are injective.

  /** Splits `s` at the first occurrence of `sep`. */
  function SplitFirst(s: string, sep: char): Option<(string, string)>
  {
    if |s| == 0 then None
    else if s[0] == sep then Some(([], s[1..]))
    else match SplitFirst(s[1..], sep)
      case None => None
      case Some(parts) => Some(([s[0]] + parts.0, parts.1))
  }

  lemma {:induction false} SplitFirstAt(a: string, sep: char, b: string)
    requires sep !in a
    ensures SplitFirst(a + [sep] + b, sep) == Some((a, b))
  {
    if |a| > 0 {
      assert (a + [sep] + b)[1..] == a[1..] + [sep] + b;
      SplitFirstAt(a[1..], sep, b);
      assert [a[0]] + a[1..] == a;
    } else {
      assert a + [sep] + b == [sep] + b;
    }
  }

  function DecodeNoteKey(s: string): Option<NoteKey>
  {
    match SplitFirst(s, '/')
    case None => None
    case Some(first) =>
      match SplitFirst(first.1, ':')
      case None => None
      case Some(second) => Some(NoteKey(first.0, second.0, second.1))
  }

  function DecodeSubTopicKey(s: string): Option<SubTopicKey>
  {
    match SplitFirst(s, '_')
    case None => None
    case Some(parts) => Some(SubTopicKey(parts.0, parts.1))
  }

  /** A note key decodes back to its components when the topic holds no '/' and the subtopic no ':'. */
  lemma NoteKeyRoundTrip(k: NoteKey)
    requires '/' !in k.topic && ':' !in k.subTopic
    ensures DecodeNoteKey(NoteKeyToString(k)) == Some(k)
  {
    var rest := k.subTopic + [':'] + k.name;
    assert NoteKeyToString(k) == k.topic + ['/'] + rest;
    SplitFirstAt(k.topic, '/', rest);
    SplitFirstAt(k.subTopic, ':', k.name);
  }

  /** A subtopic key decodes back to its components when the topic holds no '_'. */
  lemma SubTopicKeyRoundTrip(k: SubTopicKey)
    requires '_' !in k.topic
    ensures DecodeSubTopicKey(SubTopicKeyToString(k)) == Some(k)
  {
    assert SubTopicKeyToString(k) == k.topic + ['_'] + k.subTopic;
    SplitFirstAt(k.topic, '_', k.subTopic);
  }

  lemma NoteKeyInjectiveWithoutSeparators(k1: NoteKey, k2: NoteKey)
    requires '/' !in k1.topic && ':' !in k1.subTopic
    requires '/' !in k2.topic && ':' !in k2.subTopic
    ensures NoteKeyToString(k1) == NoteKeyToString(k2) <==> k1 == k2
  {
    NoteKeyRoundTrip(k1);
    NoteKeyRoundTrip(k2);
  }

  lemma SubTopicKeyInjectiveWithoutSeparators(k1: SubTopicKey, k2: SubTopicKey)
    requires '_' !in k1.topic && '_' !in k2.topic
    ensures SubTopicKeyToString(k1) == SubTopicKeyToString(k2) <==> k1 == k2
  {
    SubTopicKeyRoundTrip(k1);
    SubTopicKeyRoundTrip(k2);
  }

  /** Without escaping, different subtopic keys share one string. */
  lemma SubTopicKeyNotInjective()
    ensures SubTopicKey("a_b", "c") != SubTopicKey("a", "b_c")
    ensures SubTopicKeyToString(SubTopicKey("a_b", "c")) == SubTopicKeyToString(SubTopicKey("a", "b_c"))
  {
  }

  /** Without escaping, different note keys share one string. */
  lemma NoteKeyNotInjective()
    ensures NoteKey("a/b", "c", "d") != NoteKey("a", "b/c", "d")
    ensures NoteKeyToString(NoteKey("a/b", "c", "d")) == NoteKeyToString(NoteKey("a", "b/c", "d"))
  {
  }

  // ---------------------------------------------------------------------------
  // Order of keys within one scope

  /** Under a fixed topic and subtopic, note keys are ordered by name. */
  lemma NoteKeyOrderFollowsName(topic: string, subTopic: string, n1: string, n2: string)
    ensures Less(NoteKeyToString(NoteKey(topic, subTopic, n1)), NoteKeyToString(NoteKey(topic, subTopic, n2)))
        <==> Less(n1, n2)
  {
    var p := topic + "/" + subTopic + ":";
    assert NoteKeyToString(NoteKey(topic, subTopic, n1)) == p + n1;
    assert NoteKeyToString(NoteKey(topic, subTopic, n2)) == p + n2;
    LessPrefixCancel(p, n1, n2);
  }

  /** Under a fixed topic, subtopic keys are ordered by subtopic. */
  lemma SubTopicKeyOrderFollowsSubTopic(topic: string, s1: string, s2: string)
    ensures Less(SubTopicKeyToString(SubTopicKey(topic, s1)), SubTopicKeyToString(SubTopicKey(topic, s2)))
        <==> Less(s1, s2)
  {
    LessPrefixCancel(topic + "_", s1, s2);
  }
}
