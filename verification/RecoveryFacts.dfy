/**
 What one append does to the records a later reader sees, and what a retry finds.

 A string that holds a high surrogate followed by its low one as two code points is written like the
 one code point they stand for, so it reads back shorter.  The log keeps its promises exactly when
 this changes neither the record's identifier nor the names of its dictionaries.
 */
module RecoveryFacts {
  import opened Unicode
  import opened JsonValues
  import opened JsonSyntax
  import opened JsonGrammar
  import opened JsonReading
  import opened TwoPass
  import opened AsciiCodec
  import opened AsciiDump
  import opened DumpOrder
  import opened LoadedValues
  import opened RecoveryRecords
  import opened Recovery

  // An entry that append lets through: valid, and made of Python values that json.dumps accepts.
  ghost predicate Admitted(e: Entry, incident: Text, decodes: Number -> bool) {
    && NamespaceName(incident) && Valid(e, incident)
    && PyValue(ToJson(e), decodes) && InOrder(ToJson(e))
  }

  /******* A record read back *******/

  lemma LoadedValid(e: Entry, incident: Text, decodes: Number -> bool)
    requires Admitted(e, incident, decodes)
    ensures Valid(Loaded(e), incident) && Id(Loaded(e)) == Join(Id(e))
  {
    hide PyValue, InOrder, Join;
    NarrowIsJoined(incident);
    NarrowIsJoined(OBSERVATION.s);
    NarrowIsJoined(REQUESTED_COMMAND.s);
    JoinedIsFixed(e.recordId.s);
    JoinedIsFixed(e.createdAt.s);
  }

  // The line of an entry reads back as `Loaded` says, unless two names of a dictionary collide.
  lemma LineReads(e: Entry, incident: Text, decodes: Number -> bool)
    requires Admitted(e, incident, decodes)
    ensures ReadLine(Line(e), incident, decodes) == if NamesSurvive(ToJson(e)) then Yes(Loaded(e)) else No
  {
    hide PyValue, InOrder, NamesSurvive, Load, Dump, Valid, JoinValue, Sorted, ToText, Loaded;
    DumpThenLoad(ToJson(e), decodes);
    LoadedJson(e);
    LoadedValid(e, incident, decodes);
    var ms := Record(Values(Loaded(e)));
    assert Keys(ms) == FIELDS;
    RecordReads(Loaded(e));
  }

  /******* Lines in a file *******/

  lemma {:induction false} FirstLineExact(line: Text, more: Text)
    requires NEWLINE !in line
    ensures FirstLine(line + [NEWLINE] + more) == line + [NEWLINE]
  {
    var s := line + [NEWLINE] + more;
    if line != [] {
      assert s[1..] == line[1..] + [NEWLINE] + more;
      FirstLineExact(line[1..], more);
      assert line + [NEWLINE] == [line[0]] + (line[1..] + [NEWLINE]);
    }
  }

  lemma LineIsOneLine(e: Entry, more: Text, incident: Text, decodes: Number -> bool)
    requires Admitted(e, incident, decodes)
    ensures FirstLine(Line(e) + more) == Line(e) && NEWLINE !in Dump(ToJson(e))
  {
    DumpPlain(ToJson(e), [], decodes);
    FirstLineExact(Dump(ToJson(e)), more);
  }

  lemma {:induction false} FirstLineStays(s: Text, more: Text)
    requires s != [] && FirstLine(s)[|FirstLine(s)| - 1] == NEWLINE
    ensures FirstLine(s + more) == FirstLine(s)
  {
    if s[0] != NEWLINE {
      assert (s + more)[1..] == s[1..] + more;
      assert FirstLine(s) == [s[0]] + FirstLine(s[1..]) && FirstLine([]) == [];
      FirstLineStays(s[1..], more);
    }
  }

  function Ids(records: seq<Entry>): set<Text>
    requires forall i :: 0 <= i < |records| ==> records[i].recordId.Str?
  {
    if records == [] then {} else {Id(records[0])} + Ids(records[1..])
  }

  // The first line of a readable file, and of any file that starts with a readable line.
  lemma ReadStep(file: Text, incident: Text, decodes: Number -> bool, seen: set<Text>)
    requires file != []
    ensures var line := FirstLine(file); var e := ReadLine(line, incident, decodes);
      Read(file, incident, decodes, seen) ==
      if line[|line| - 1] == NEWLINE && e.Yes? && Id(e.value) !in seen
      then Push(e.value, Read(file[|line|..], incident, decodes, seen + {Id(e.value)})) else No
  {
    hide ReadLine;
  }

  lemma ReadNothing(incident: Text, decodes: Number -> bool, seen: set<Text>)
    ensures Read([], incident, decodes, seen) == Yes([])
  {
  }

  // Reading goes on where a readable file ends.
  lemma {:induction false} ReadConcat(file: Text, more: Text, incident: Text, decodes: Number -> bool, seen: set<Text>)
    requires Read(file, incident, decodes, seen).Yes?
    ensures var records := Read(file, incident, decodes, seen).value;
      Read(file + more, incident, decodes, seen) == PrependAll(records, Read(more, incident, decodes, seen + Ids(records)))
    decreases |file|
  {
    hide ReadLine, Read, FirstLine;
    if file == [] {
      ReadNothing(incident, decodes, seen);
      assert file + more == more && seen + {} == seen;
      var r := Read(more, incident, decodes, seen);
      assert r.Yes? ==> [] + r.value == r.value;
    } else {
      var line := FirstLine(file);
      ReadStep(file, incident, decodes, seen);
      ReadStep(file + more, incident, decodes, seen);
      FirstLineStays(file, more);
      var e := ReadLine(line, incident, decodes).value;
      assert (file + more)[|line|..] == file[|line|..] + more;
      var seen' := seen + {Id(e)};
      ReadConcat(file[|line|..], more, incident, decodes, seen');
      var rest := Read(file[|line|..], incident, decodes, seen').value;
      var records := Read(file, incident, decodes, seen).value;
      assert records == [e] + rest && records[1..] == rest;
      assert seen' + Ids(rest) == seen + Ids(records);
      var r := Read(more, incident, decodes, seen + Ids(records));
      assert r.Yes? ==> [e] + (rest + r.value) == ([e] + rest) + r.value;
    }
  }

  // The records of a readable file have pairwise distinct identifiers.
  lemma {:induction false} RecordsDistinct(file: Text, incident: Text, decodes: Number -> bool, seen: set<Text>)
    requires Read(file, incident, decodes, seen).Yes?
    ensures var records := Read(file, incident, decodes, seen).value;
      && Ids(records) !! seen
      && forall i, j :: 0 <= i < j < |records| ==> Id(records[i]) != Id(records[j])
    decreases |file|
  {
    if file != [] {
      hide ReadLine;
      var line := FirstLine(file);
      var e := ReadLine(line, incident, decodes).value;
      RecordsDistinct(file[|line|..], incident, decodes, seen + {Id(e)});
      var rest := Read(file[|line|..], incident, decodes, seen + {Id(e)}).value;
      var records := Read(file, incident, decodes, seen).value;
      assert records == [e] + rest && records[1..] == rest;
      forall i, j | 0 <= i < j < |records| ensures Id(records[i]) != Id(records[j]) {
        if i == 0 {
          IdsHold(rest, j - 1);
        }
      }
    }
  }

  lemma {:induction false} IdsHold(records: seq<Entry>, i: nat)
    requires i < |records| && forall j :: 0 <= j < |records| ==> records[j].recordId.Str?
    ensures Id(records[i]) in Ids(records)
  {
    if i > 0 {
      IdsHold(records[1..], i - 1);
    }
  }

  // A file that does not end in a line feed is refused.
  lemma {:induction false} TornIsUnreadable(file: Text, incident: Text, decodes: Number -> bool, seen: set<Text>)
    requires file != [] && file[|file| - 1] != NEWLINE
    ensures Read(file, incident, decodes, seen).No?
    decreases |file|
  {
    hide ReadLine;
    var line := FirstLine(file);
    if line[|line| - 1] == NEWLINE {
      var rest := file[|line|..];
      assert |line| < |file| && rest[|rest| - 1] == file[|file| - 1];
      var r := ReadLine(line, incident, decodes);
      if r.Yes? {
        TornIsUnreadable(rest, incident, decodes, seen + {Id(r.value)});
      }
    }
  }

  /******* Appending *******/

  // A line added to a readable file: readable again exactly when the names survive and the identifier,
  // as it will be read, is not there yet.
  lemma AppendedReads(file: Text, e: Entry, incident: Text, decodes: Number -> bool)
    requires Admitted(e, incident, decodes) && Read(file, incident, decodes, {}).Yes?
    ensures var records := Read(file, incident, decodes, {}).value;
      Read(file + Line(e), incident, decodes, {}) ==
      if NamesSurvive(ToJson(e)) && Join(Id(e)) !in Ids(records) then Yes(records + [Loaded(e)]) else No
  {
    hide ReadLine, Read, FirstLine, NamesSurvive, Line, Loaded, Join, PyValue, InOrder, NamespaceName;
    var records := Read(file, incident, decodes, {}).value;
    ReadConcat(file, Line(e), incident, decodes, {});
    assert {} + Ids(records) == Ids(records);
    LineReads(e, incident, decodes);
    LineIsOneLine(e, [], incident, decodes);
    LineEnds(e);
    LoadedValid(e, incident, decodes);
    assert Line(e) + [] == Line(e) && Line(e)[|Line(e)|..] == [];
    ReadNothing(incident, decodes, Ids(records) + {Id(Loaded(e))});
    ReadStep(Line(e), incident, decodes, Ids(records));
    assert [Loaded(e)] + [] == [Loaded(e)];
  }

  lemma LineEnds(e: Entry)
    ensures Line(e) != [] && Line(e)[|Line(e)| - 1] == NEWLINE
  {
  }

  lemma {:induction false} CompareExact(records: seq<Entry>, e: Entry, k: nat)
    requires e.recordId.Str? && forall i :: 0 <= i < |records| ==> records[i].recordId.Str?
    requires forall i, j :: 0 <= i < j < |records| ==> Id(records[i]) != Id(records[j])
    requires k < |records| && Id(records[k]) == Id(e)
    ensures Compare(records, e) == if Line(records[k]) == Line(e) then Original(records[k]) else Refuse
  {
    hide Line;
    if k > 0 {
      forall i, j | 0 <= i < j < |records[1..]| ensures Id(records[1..][i]) != Id(records[1..][j]) {
        assert records[1..][i] == records[i + 1] && records[1..][j] == records[j + 1];
      }
      CompareExact(records[1..], e, k - 1);
    }
  }

  lemma {:induction false} CompareWrites(records: seq<Entry>, e: Entry)
    requires e.recordId.Str? && forall i :: 0 <= i < |records| ==> records[i].recordId.Str?
    ensures Compare(records, e).Write? <==> Id(e) !in Ids(records)
  {
    if records != [] {
      CompareWrites(records[1..], e);
    }
  }

  // What is read can be dumped again.
  lemma {:induction false} RecordsArePy(file: Text, incident: Text, decodes: Number -> bool, seen: set<Text>)
    requires PyText(file)
    ensures var r := Read(file, incident, decodes, seen);
      r.Yes? ==> forall i :: 0 <= i < |r.value| ==> PyValue(ToJson(r.value[i]), decodes)
    decreases |file|
  {
    hide ReadLine, Read, FirstLine, PyValue, ToJson;
    if file == [] {
      ReadNothing(incident, decodes, seen);
    } else if Read(file, incident, decodes, seen).Yes? {
      ReadStep(file, incident, decodes, seen);
      var line := FirstLine(file);
      var e := ReadLine(line, incident, decodes).value;
      LineIsPy(line, incident, decodes);
      RecordsArePy(file[|line|..], incident, decodes, seen + {Id(e)});
    }
  }

  lemma LineIsPy(line: Text, incident: Text, decodes: Number -> bool)
    requires PyText(line) && ReadLine(line, incident, decodes).Yes?
    ensures PyValue(ToJson(ReadLine(line, incident, decodes).value), decodes)
  {
    hide Load, PyValue, Valid, PyText, FIELDS;
    LoadIsPy(line, decodes);
    FieldsInOrder();
    var ms := Load(line, decodes).value.members;
    var e := FromJson(ms);
    var vs := Values(e);
    forall i | 0 <= i < |ms| ensures ms[i] == Record(vs)[i] {
      assert Keys(ms)[i] == ms[i].key;
    }
    assert Record(vs) == ms;
  }

  // A record whose identifier is already there is answered with the original when both payloads are equal
  // up to joined surrogate pairs, and refused otherwise; the file is not written.
  lemma RetryDecided(file: Text, e: Entry, k: nat, incident: Text, decodes: Number -> bool)
    requires Admitted(e, incident, decodes) && PyText(file)
    requires Read(file, incident, decodes, {}).Yes?
    requires var records := Read(file, incident, decodes, {}).value; k < |records| && Id(records[k]) == Id(e)
    ensures var previous := Read(file, incident, decodes, {}).value[k];
      Decide(file, e, incident, decodes) ==
      if JoinValue(ToJson(previous)) == JoinValue(ToJson(e)) then Original(previous) else Refuse
  {
    hide ToJson, PyValue, InOrder, Read, JoinValue;
    RecordsArePy(file, incident, decodes, {});
    RetryCompared(file, e, k, incident, decodes);
  }

  lemma RetryCompared(file: Text, e: Entry, k: nat, incident: Text, decodes: Number -> bool)
    requires Admitted(e, incident, decodes)
    requires Read(file, incident, decodes, {}).Yes?
    requires var records := Read(file, incident, decodes, {}).value;
      k < |records| && Id(records[k]) == Id(e) && PyValue(ToJson(records[k]), decodes)
    ensures var previous := Read(file, incident, decodes, {}).value[k];
      Decide(file, e, incident, decodes) ==
      if JoinValue(ToJson(previous)) == JoinValue(ToJson(e)) then Original(previous) else Refuse
  {
    hide Dump, ToJson, PyValue, InOrder, Read, JoinValue;
    var records := Read(file, incident, decodes, {}).value;
    RecordsDistinct(file, incident, decodes, {});
    CompareExact(records, e, k);
    DumpsAlike(ToJson(records[k]), ToJson(e), decodes);
    var a, b := Dump(ToJson(records[k])), Dump(ToJson(e));
    assert a == (a + [NEWLINE])[..|a|] && b == (b + [NEWLINE])[..|b|];
  }

  // When does an append followed by the same append return the original?
  lemma RetryExact(file: Text, e: Entry, incident: Text, decodes: Number -> bool)
    requires Admitted(e, incident, decodes) && Read(file, incident, decodes, {}).Yes?
    requires Decide(file, e, incident, decodes).Write?
    ensures Decide(file + Line(e), e, incident, decodes).Original? <==>
      Join(Id(e)) == Id(e) && InOrder(JoinValue(ToJson(e)))
    ensures Decide(file + Line(e), e, incident, decodes).Original? ==>
      Decide(file + Line(e), e, incident, decodes) == Original(Loaded(e))
  {
    hide Read, Line, ToJson, PyValue, InOrder, JoinValue, NamesSurvive, Loaded, Join;
    var records := Read(file, incident, decodes, {}).value;
    var v, after := ToJson(e), file + Line(e);
    AppendedReads(file, e, incident, decodes);
    CompareWrites(records, e);
    LoadedValid(e, incident, decodes);
    OrderKeepsNames(v, decodes);
    if Read(after, incident, decodes, {}).Yes? {
      var more := records + [Loaded(e)];
      if Join(Id(e)) == Id(e) {
        LoadedFacts(v, decodes);
        LoadedJson(e);
        RetryCompared(after, e, |records|, incident, decodes);
        RedumpIsStable(v, decodes);
        DumpsAlike(Back(v), v, decodes);
      } else {
        IdsConcat(records, [Loaded(e)]);
        assert Ids([Loaded(e)]) == {Join(Id(e))} by { assert [Loaded(e)][1..] == []; }
        CompareWrites(more, e);
      }
    }
  }

  lemma {:induction false} IdsConcat(a: seq<Entry>, b: seq<Entry>)
    requires forall i :: 0 <= i < |a| ==> a[i].recordId.Str?
    requires forall i :: 0 <= i < |b| ==> b[i].recordId.Str?
    ensures forall i :: 0 <= i < |a + b| ==> (a + b)[i].recordId.Str?
    ensures Ids(a + b) == Ids(a) + Ids(b)
  {
    if a == [] {
      assert a + b == b;
    } else {
      assert (a + b)[1..] == a[1..] + b;
      IdsConcat(a[1..], b);
    }
  }

  // Names that stay in order do not collide.
  lemma OrderKeepsNames(v: Json, decodes: Number -> bool)
    requires PyValue(v, decodes)
    ensures InOrder(JoinValue(v)) ==> NamesSurvive(v)
  {
    hide PyValue, InOrder, JoinValue, NamesSurvive, AsciiTree, Denote, Wf, Loadable;
    if InOrder(JoinValue(v)) {
      JoinTwice(v, decodes);
      JoinedNamesSurvive(JoinValue(v));
      AsciiTreeOfJoined(v, decodes);
      AsciiTreeExact(v, decodes);
      AsciiTreeExact(JoinValue(v), decodes);
    }
  }

  /******* Which lines are records *******/

  // What _validate_entry demands, field by field.
  ghost predicate FieldsFit(incident: Text, basisRevision: Json, createdAt: Json, detail: Json, incidentId: Json,
                            recordId: Json, recordKind: Json, requestedCommand: Json, summary: Json) {
    && incidentId == Str(incident) && KindFits(recordKind, requestedCommand)
    && recordId.Str? && 1 <= |recordId.s| <= 128 && createdAt.Str? && |createdAt.s| > 0 && summary.Str? && detail.Obj?
    && (basisRevision.Null? || basisRevision.Str?)
  }

  lemma {:induction false} InOrderAt(members: seq<Member>, i: nat, j: nat)
    requires MembersInOrder(members) && i < j < |members|
    ensures Less(members[i].key, members[j].key)
    decreases |members|
  {
    hide InOrder, Less;
    if i > 0 {
      InOrderAt(members[1..], i - 1, j - 1);
    } else if j > 1 {
      InOrderAt(members[1..], 0, j - 1);
      LessTransitive(members[0].key, members[1].key, members[j].key);
    }
  }

  lemma LoadInOrder(line: Text, decodes: Number -> bool)
    ensures Load(line, decodes).Yes? ==> InOrder(Load(line, decodes).value)
  {
    hide ParseDocument, Spell, Wf, Loadable, Denote, Sorted, InOrder;
    if Load(line, decodes).Yes? {
      var cfg := Config(|line|, |line|, Lenient);
      DocumentSound(line, cfg);
      SortedInOrder(ParseDocument(line, cfg).value.value, decodes);
    }
  }

  lemma SpellsField(t: Text, s: string)
    ensures Spells(t, s) <==> t == ToText(s)
  {
  }

  // A dictionary that has the eight names has them as its members, in key order.
  lemma FieldsArePlaced(v: Json, k: nat, i: nat, value: Json)
    requires v.Obj? && InOrder(v) && |v.members| == 8 && (forall j :: 0 <= j < 8 ==> NameAt(v.members, j))
    requires k < 8 && i < 8 && v.members[i].key == FIELDS[k]
    ensures i == k
  {
    hide Less, FIELDS, InOrder;
    FieldsInOrder();
    assert MembersInOrder(v.members) by { InOrderMembers(v); }
    PlacedBelow(v.members, k, i);
    PlacedAbove(v.members, k, i);
  }

  lemma InOrderMembers(v: Json)
    requires v.Obj? && InOrder(v)
    ensures MembersInOrder(v.members)
  {
  }

  ghost predicate NameAt(members: seq<Member>, k: nat) {
    k < |FIELDS| && exists i :: 0 <= i < |members| && members[i].key == FIELDS[k]
  }

  // Before the place of a name there is room for the smaller names.
  lemma {:induction false} PlacedBelow(members: seq<Member>, k: nat, i: nat)
    requires MembersInOrder(members) && |members| == 8 == |FIELDS| && (forall j :: 0 <= j < 8 ==> NameAt(members, j))
    requires forall j :: 0 <= j < 7 ==> Less(FIELDS[j], FIELDS[j + 1])
    requires k < 8 && i < 8 && members[i].key == FIELDS[k]
    ensures k <= i
    decreases k
  {
    if k > 0 {
      hide Less, FIELDS, MembersInOrder;
      assert NameAt(members, k - 1);
      var h :| 0 <= h < 8 && members[h].key == FIELDS[k - 1];
      assert Less(FIELDS[k - 1], FIELDS[k - 1 + 1]);
      PlacedBelow(members, k - 1, h);
      PlacedBefore(members, h, i);
    }
  }

  // Behind it there is room for the larger ones.
  lemma {:induction false} PlacedAbove(members: seq<Member>, k: nat, i: nat)
    requires MembersInOrder(members) && |members| == 8 == |FIELDS| && (forall j :: 0 <= j < 8 ==> NameAt(members, j))
    requires forall j :: 0 <= j < 7 ==> Less(FIELDS[j], FIELDS[j + 1])
    requires k < 8 && i < 8 && members[i].key == FIELDS[k]
    ensures i <= k
    decreases 8 - k
  {
    if k < 7 {
      hide Less, FIELDS, MembersInOrder;
      assert NameAt(members, k + 1);
      var h :| 0 <= h < 8 && members[h].key == FIELDS[k + 1];
      assert Less(FIELDS[k], FIELDS[k + 1]);
      PlacedAbove(members, k + 1, h);
      PlacedBefore(members, i, h);
    }
  }

  lemma PlacedBefore(members: seq<Member>, h: nat, i: nat)
    requires MembersInOrder(members) && h < |members| && i < |members| && Less(members[h].key, members[i].key)
    ensures h < i
  {
    hide Less;
    LessTotal(members[h].key, members[i].key);
    if i < h {
      InOrderAt(members, i, h);
    }
  }

  // A line is a record exactly when it loads as an object with the eight fields and nothing else, each of which fits.
  lemma LineIsRecord(line: Text, incident: Text, decodes: Number -> bool, e: Entry)
    ensures ReadLine(line, incident, decodes) == Yes(e) <==>
      && Load(line, decodes).Yes?
      && HasFields(Load(line, decodes).value, e.basisRevision, e.createdAt, e.detail, e.incidentId, e.recordId, e.recordKind,
                   e.requestedCommand, e.summary)
      && FieldsFit(incident, e.basisRevision, e.createdAt, e.detail, e.incidentId, e.recordId, e.recordKind,
                   e.requestedCommand, e.summary)
  {
    hide Load, HasFields;
    ValidMeans(e, incident);
    if Load(line, decodes).Yes? {
      var v := Load(line, decodes).value;
      LoadInOrder(line, decodes);
      if HasFields(v, e.basisRevision, e.createdAt, e.detail, e.incidentId, e.recordId, e.recordKind, e.requestedCommand, e.summary) {
        FieldsDecide(v, e);
        EntryKeys(e);
        RecordReads(e);
      } else if v.Obj? && Keys(v.members) == FIELDS && FromJson(v.members) == e {
        KeysDecide(v.members, e);
        NamedFields(e);
      }
    }
  }

  lemma ValidMeans(e: Entry, incident: Text)
    ensures Valid(e, incident) <==>
      FieldsFit(incident, e.basisRevision, e.createdAt, e.detail, e.incidentId, e.recordId, e.recordKind, e.requestedCommand, e.summary)
  {
    if e.recordKind.Str? {
      SpellsField(e.recordKind.s, "observation");
      SpellsField(e.recordKind.s, "requested-command");
    }
  }

  lemma EntryKeys(e: Entry)
    ensures Keys(ToJson(e).members) == FIELDS
  {
    hide FIELDS, Values;
  }

  lemma KeysDecide(ms: seq<Member>, e: Entry)
    requires Keys(ms) == FIELDS && FromJson(ms) == e
    ensures Obj(ms) == ToJson(e)
  {
    var values := Values(e);
    forall i | 0 <= i < |ms| ensures ms[i] == Member(FIELDS[i], values[i]) {
      assert Keys(ms)[i] == ms[i].key;
    }
    assert ms == Record(values);
  }

  // One field of a dictionary with the eight names.
  lemma OneField(v: Json, k: nat, name: string, value: Json)
    requires v.Obj? && InOrder(v) && |v.members| == 8 && (forall j :: 0 <= j < 8 ==> NameAt(v.members, j))
    requires k < 8 && FIELDS[k] == ToText(name) && Has(v, name, value)
    ensures v.members[k] == Member(FIELDS[k], value)
  {
    hide FIELDS, InOrder, NameAt;
    var i :| 0 <= i < |v.members| && Spells(v.members[i].key, name) && v.members[i].value == value;
    SpellsField(v.members[i].key, name);
    FieldsArePlaced(v, k, i, value);
  }

  lemma FieldsDecide(v: Json, e: Entry)
    requires InOrder(v)
    requires HasFields(v, e.basisRevision, e.createdAt, e.detail, e.incidentId, e.recordId, e.recordKind, e.requestedCommand, e.summary)
    ensures v == ToJson(e)
  {
    NamesPresent(v, e);
    hide InOrder, Has, NameAt;
    OneField(v, 0, "basis_revision", e.basisRevision);
    OneField(v, 1, "created_at", e.createdAt);
    OneField(v, 2, "detail", e.detail);
    OneField(v, 3, "incident_id", e.incidentId);
    OneField(v, 4, "record_id", e.recordId);
    OneField(v, 5, "record_kind", e.recordKind);
    OneField(v, 6, "requested_command", e.requestedCommand);
    OneField(v, 7, "summary", e.summary);
    var values := Values(e);
    forall i | 0 <= i < 8 ensures v.members[i] == Member(FIELDS[i], values[i]) {
    }
    assert v.members == Record(values);
  }

  lemma NamesPresent(v: Json, e: Entry)
    requires HasFields(v, e.basisRevision, e.createdAt, e.detail, e.incidentId, e.recordId, e.recordKind, e.requestedCommand, e.summary)
    ensures forall j :: 0 <= j < 8 ==> NameAt(v.members, j)
  {
    Present(v, 0, "basis_revision", e.basisRevision);
    Present(v, 1, "created_at", e.createdAt);
    Present(v, 2, "detail", e.detail);
    Present(v, 3, "incident_id", e.incidentId);
    Present(v, 4, "record_id", e.recordId);
    Present(v, 5, "record_kind", e.recordKind);
    Present(v, 6, "requested_command", e.requestedCommand);
    Present(v, 7, "summary", e.summary);
  }

  lemma Present(v: Json, k: nat, name: string, value: Json)
    requires k < 8 && FIELDS[k] == ToText(name) && Has(v, name, value)
    ensures NameAt(v.members, k)
  {
    assert k < |FIELDS|;
    hide FIELDS;
    var i :| 0 <= i < |v.members| && Spells(v.members[i].key, name) && v.members[i].value == value;
    SpellsField(v.members[i].key, name);
  }
}
