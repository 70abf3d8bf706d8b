/**
 A record of the recovery log: its fields, its line in the file, and what a reader finds under the name of each field.
 */
module RecoveryRecords {
  import opened Unicode
  import opened JsonValues
  import opened JsonSyntax
  import opened AsciiCodec
  import opened AsciiDump

  const NEWLINE := 0x0A

  const OBSERVATION := Str(ToText("observation"))
  const REQUESTED_COMMAND := Str(ToText("requested-command"))

  // The fields of a record in key order.
  const FIELDS: seq<Text> := [
    ToText("basis_revision"), ToText("created_at"), ToText("detail"), ToText("incident_id"),
    ToText("record_id"), ToText("record_kind"), ToText("requested_command"), ToText("summary")]

  // An absent field is null.  The types of the fields are checked by `Valid`, not assumed.
  datatype Entry = Entry(
    basisRevision: Json, createdAt: Json, detail: Json, incidentId: Json,
    recordId: Json, recordKind: Json, requestedCommand: Json, summary: Json)

  function Values(e: Entry): seq<Json> {
    [e.basisRevision, e.createdAt, e.detail, e.incidentId, e.recordId, e.recordKind, e.requestedCommand, e.summary]
  }

  function Record(values: seq<Json>): seq<Member>
    requires |values| == |FIELDS|
  {
    seq(|FIELDS|, i requires 0 <= i < |FIELDS| => Member(FIELDS[i], values[i]))
  }

  function ToJson(e: Entry): Json { Obj(Record(Values(e))) }

  function FromJson(members: seq<Member>): Entry
    requires |members| == |FIELDS|
  {
    Entry(members[0].value, members[1].value, members[2].value, members[3].value,
          members[4].value, members[5].value, members[6].value, members[7].value)
  }

  predicate Valid(e: Entry, incident: Text) {
    && e.incidentId == Str(incident)
    && (e.recordKind == OBSERVATION || e.recordKind == REQUESTED_COMMAND)
    && e.recordId.Str? && 1 <= |e.recordId.s| <= 128
    && e.createdAt.Str? && e.createdAt.s != []
    && e.summary.Str?
    && (e.basisRevision.Null? || e.basisRevision.Str?)
    && e.detail.Obj?
    && (e.recordKind == OBSERVATION ==> e.requestedCommand.Null?)
    && (e.recordKind == REQUESTED_COMMAND ==> e.requestedCommand.Obj?)
  }

  function Line(e: Entry): Text { Dump(ToJson(e)) + [NEWLINE] }

  /******* A record read back *******/

  function Back(v: Json): Json { Sorted(JoinValue(v)) }

  // The entry a reader gets for the line of `e`.
  function Loaded(e: Entry): Entry {
    Entry(Back(e.basisRevision), Back(e.createdAt), Back(e.detail), Back(e.incidentId),
          Back(e.recordId), Back(e.recordKind), Back(e.requestedCommand), Back(e.summary))
  }

  /******* A record's names *******/

  lemma {:induction false} NarrowIsJoined(s: Text)
    requires forall i :: 0 <= i < |s| ==> s[i] < 0xD800
    ensures Join(s) == s
  {
    JoinedIsFixed(s);
  }

  lemma {:induction false} LessAt(a: Text, b: Text, k: nat)
    requires k < |a| && k < |b| && a[..k] == b[..k] && a[k] < b[k]
    ensures Less(a, b)
  {
    if k > 0 {
      assert a[0] == a[..k][0] && b[0] == b[..k][0];
      assert a[1..][..k - 1] == a[..k][1..] && b[1..][..k - 1] == b[..k][1..];
      LessAt(a[1..], b[1..], k - 1);
    }
  }

  lemma FieldsInOrder()
    ensures |FIELDS| == 8 && forall i :: 0 <= i < |FIELDS| - 1 ==> Less(FIELDS[i], FIELDS[i + 1])
  {
    hide Less;
    assert FIELDS[0][0] == 0x62 && FIELDS[1][0] == 0x63 && FIELDS[2][0] == 0x64 && FIELDS[3][0] == 0x69;
    assert FIELDS[4][0] == 0x72 && FIELDS[6][0] == 0x72 && FIELDS[7][0] == 0x73;
    LessAt(FIELDS[0], FIELDS[1], 0);
    LessAt(FIELDS[1], FIELDS[2], 0);
    LessAt(FIELDS[2], FIELDS[3], 0);
    LessAt(FIELDS[3], FIELDS[4], 0);
    LessAt(FIELDS[4], FIELDS[5], 7);
    LessAt(FIELDS[5], FIELDS[6], 2);
    LessAt(FIELDS[6], FIELDS[7], 0);
  }

  lemma FieldsJoined()
    ensures forall i :: 0 <= i < |FIELDS| ==> Join(FIELDS[i]) == FIELDS[i]
  {
    forall i | 0 <= i < |FIELDS| ensures Join(FIELDS[i]) == FIELDS[i] {
      NarrowIsJoined(FIELDS[i]);
    }
  }

  lemma {:induction false} JoinMembersAt(members: seq<Member>)
    ensures |JoinMembers(members)| == |members|
    ensures forall i :: 0 <= i < |members| ==>
      JoinMembers(members)[i] == Member(Join(members[i].key), JoinValue(members[i].value))
  {
    if members != [] {
      JoinMembersAt(members[1..]);
    }
  }

  // Sorting members whose names are in order sorts only their values.
  lemma {:induction false} SortedMembersAt(members: seq<Member>)
    requires forall i :: 0 <= i < |members| - 1 ==> Less(members[i].key, members[i + 1].key)
    ensures |SortedMembers(members)| == |members|
    ensures forall i :: 0 <= i < |members| ==>
      SortedMembers(members)[i] == Member(members[i].key, Sorted(members[i].value))
  {
    if members != [] {
      hide Less, Sorted;
      var more := members[1..];
      forall i | 0 <= i < |more| - 1 ensures Less(more[i].key, more[i + 1].key) {
        assert more[i] == members[i + 1] && more[i + 1] == members[i + 2];
      }
      SortedMembersAt(more);
      var m := Member(members[0].key, Sorted(members[0].value));
      assert |members| > 1 ==> SortedMembers(more)[0].key == members[1].key;
      assert SortedMembers(members) == [m] + SortedMembers(more);
    }
  }

  // Reading a record back touches its values and not its names.
  lemma LoadedJson(e: Entry)
    ensures Back(ToJson(e)) == ToJson(Loaded(e))
  {
    hide Join, JoinValue, Sorted, Less, FIELDS;
    FieldsInOrder();
    var ms := Record(Values(e));
    FieldsJoined();
    JoinMembersAt(ms);
    var js := JoinMembers(ms);
    forall i | 0 <= i < |js| - 1 ensures Less(js[i].key, js[i + 1].key) {
      assert js[i].key == FIELDS[i] && js[i + 1].key == FIELDS[i + 1];
    }
    SortedMembersAt(js);
    ObjBack(ms);
    assert SortedMembers(js) == Record(Values(Loaded(e)));
  }

  lemma ObjBack(ms: seq<Member>)
    ensures Back(Obj(ms)) == Obj(SortedMembers(JoinMembers(ms)))
  {
  }

  lemma RecordReads(e: Entry)
    ensures FromJson(Record(Values(e))) == e
  {
  }

  /******* A record by the names of its fields *******/

  ghost predicate Spells(t: Text, s: string) { |t| == |s| && forall i :: 0 <= i < |s| ==> t[i] == s[i] as int }

  // The object has a member of this name with this value.
  ghost predicate Has(v: Json, name: string, value: Json) {
    v.Obj? && exists i :: 0 <= i < |v.members| && Spells(v.members[i].key, name) && v.members[i].value == value
  }

  // The fields, by their names in recovery.py.
  ghost predicate HasFields(v: Json, basisRevision: Json, createdAt: Json, detail: Json, incidentId: Json, recordId: Json,
                            recordKind: Json, requestedCommand: Json, summary: Json) {
    && v.Obj? && |v.members| == 8
    && Has(v, "basis_revision", basisRevision) && Has(v, "created_at", createdAt) && Has(v, "detail", detail)
    && Has(v, "incident_id", incidentId) && Has(v, "record_id", recordId) && Has(v, "record_kind", recordKind)
    && Has(v, "requested_command", requestedCommand) && Has(v, "summary", summary)
  }

  lemma NamedFields(e: Entry)
    ensures HasFields(ToJson(e), e.basisRevision, e.createdAt, e.detail, e.incidentId, e.recordId, e.recordKind,
                      e.requestedCommand, e.summary)
  {
    var ms := ToJson(e).members;
    assert Spells(ms[0].key, "basis_revision") && Spells(ms[1].key, "created_at") && Spells(ms[2].key, "detail");
    assert Spells(ms[3].key, "incident_id") && Spells(ms[4].key, "record_id") && Spells(ms[5].key, "record_kind");
    assert Spells(ms[6].key, "requested_command") && Spells(ms[7].key, "summary");
  }

  // A Python value that json.dumps accepts, and none of whose dictionaries has two names that are written alike.
  ghost predicate Intact(v: Json, decodes: Number -> bool) { PyValue(v, decodes) && NamesSurvive(v) }

  lemma {:induction false} IntactMembers(ms: seq<Member>, decodes: Number -> bool, seen: set<Text>)
    requires forall i :: 0 <= i < |ms| ==> PyText(ms[i].key) && Join(ms[i].key) == ms[i].key && Intact(ms[i].value, decodes)
    requires forall i :: 0 <= i < |ms| ==> ms[i].key !in seen && forall j :: 0 <= j < i ==> ms[j].key != ms[i].key
    ensures PyMembers(ms, decodes) && MembersSurvive(ms, seen)
  {
    if ms != [] {
      hide Join, PyValue, NamesSurvive, PyText;
      var rest := ms[1..];
      forall i | 0 <= i < |rest|
        ensures rest[i].key !in seen + {ms[0].key} && forall j :: 0 <= j < i ==> rest[j].key != rest[i].key
      {
        assert rest[i] == ms[i + 1];
        assert forall j :: 0 <= j < i ==> rest[j] == ms[j + 1];
      }
      IntactMembers(rest, decodes, seen + {ms[0].key});
    }
  }

  lemma FieldsDiffer()
    ensures forall i, j :: 0 <= j < i < |FIELDS| ==> FIELDS[j] != FIELDS[i]
  {
    assert FIELDS[0][0] == 0x62 && FIELDS[1][0] == 0x63 && FIELDS[2][0] == 0x64 && FIELDS[3][0] == 0x69;
    assert FIELDS[4][0] == FIELDS[5][0] == FIELDS[6][0] == 0x72 && FIELDS[7][0] == 0x73;
    assert |FIELDS[4]| == 9 && |FIELDS[5]| == 11 && |FIELDS[6]| == 17;
  }

  // Names that json.dumps keeps apart, with values that survive.
  ghost predicate IntactRecord(ms: seq<Member>, decodes: Number -> bool) {
    && (forall i :: 0 <= i < |ms| ==> PyText(ms[i].key) && Join(ms[i].key) == ms[i].key && Intact(ms[i].value, decodes))
    && (forall i, j :: 0 <= j < i < |ms| ==> ms[j].key != ms[i].key)
  }

  lemma RecordIntact(e: Entry, decodes: Number -> bool)
    requires forall i :: 0 <= i < |FIELDS| ==> Intact(Values(e)[i], decodes)
    ensures IntactRecord(Record(Values(e)), decodes)
  {
    var ms := Record(Values(e));
    forall i | 0 <= i < |ms| ensures PyText(ms[i].key) && Join(ms[i].key) == ms[i].key && Intact(ms[i].value, decodes) {
      FieldsJoined();
      FieldsArePy();
      hide Join, PyText, FIELDS, Values, Intact;
    }
    forall i, j | 0 <= j < i < |ms| ensures ms[j].key != ms[i].key {
      FieldsDiffer();
      hide FIELDS, Values;
    }
  }

  lemma IntactRecordIsPy(ms: seq<Member>, decodes: Number -> bool)
    requires IntactRecord(ms, decodes)
    ensures PyValue(Obj(ms), decodes) && NamesSurvive(Obj(ms))
  {
    hide Join, PyText, Intact;
    IntactMembers(ms, decodes, {});
  }

  // The line of a record whose fields are intact loads as an object that holds each field, as it reads back, under its
  // own name.
  lemma LineHolds(e: Entry, decodes: Number -> bool)
    requires forall i :: 0 <= i < |FIELDS| ==> Intact(Values(e)[i], decodes)
    ensures Load(Line(e), decodes) == Yes(ToJson(Loaded(e)))
  {
    RecordIntact(e, decodes);
    IntactRecordIsPy(Record(Values(e)), decodes);
    assert ToJson(e) == Obj(Record(Values(e)));
    hide FIELDS, Values, Load, Dump, Sorted, JoinValue, ToJson, PyValue, NamesSurvive, Intact, IntactRecord;
    DumpThenLoad(ToJson(e), decodes);
    LoadedJson(e);
  }

  lemma FieldsArePy()
    ensures forall i :: 0 <= i < |FIELDS| ==> PyText(FIELDS[i])
  {
  }
}
