/**
 Where the promise of the recovery log fails: admitted entries whose text changes on the way back.
 */
module RecoveryLimits {
  import opened Unicode
  import opened JsonValues
  import opened AsciiCodec
  import opened AsciiDump
  import opened RecoveryRecords
  import opened Recovery
  import opened RecoveryFacts
  import opened RecoveryRuns

  const SPLIT: Text := [0xD800, 0xDC00]
  const WHOLE: Text := [0x10000]
  const PRIVATE_USE: Text := [0xE000]

  // An observation that is ordinary but for its identifier and its detail.
  function Observation(incident: Text, id: Text, detail: seq<Member>): Entry {
    Entry(Null, Str([0x30]), Obj(detail), Str(incident), Str(id), OBSERVATION, Null, Str([]))
  }

  lemma {:induction false} PyMembersAt(members: seq<Member>, decodes: Number -> bool)
    requires forall i :: 0 <= i < |members| ==> PyText(members[i].key) && PyValue(members[i].value, decodes)
    ensures PyMembers(members, decodes)
  {
    if members != [] {
      PyMembersAt(members[1..], decodes);
    }
  }

  lemma {:induction false} MembersInOrderAt(members: seq<Member>)
    requires forall i :: 0 <= i < |members| ==> InOrder(members[i].value)
    requires forall i :: 0 <= i < |members| - 1 ==> Less(members[i].key, members[i + 1].key)
    ensures MembersInOrder(members)
  {
    if members != [] {
      hide Less, InOrder;
      var more := members[1..];
      forall i | 0 <= i < |more| - 1 ensures Less(more[i].key, more[i + 1].key) {
        assert more[i] == members[i + 1] && more[i + 1] == members[i + 2];
      }
      MembersInOrderAt(more);
    }
  }

  // What holds of a record holds of each of its values.
  lemma {:induction false} ValuesSurvive(members: seq<Member>, seen: set<Text>, i: nat)
    requires MembersSurvive(members, seen) && i < |members|
    ensures NamesSurvive(members[i].value)
  {
    if i > 0 {
      ValuesSurvive(members[1..], seen + {Join(members[0].key)}, i - 1);
    }
  }

  lemma {:induction false} ValuesInOrder(members: seq<Member>, i: nat)
    requires MembersInOrder(members) && i < |members|
    ensures InOrder(members[i].value)
  {
    if i > 0 {
      ValuesInOrder(members[1..], i - 1);
    }
  }

  lemma FieldsPy()
    ensures forall i :: 0 <= i < |FIELDS| ==> PyText(FIELDS[i])
  {
  }

  lemma ObservationAdmitted(incident: Text, id: Text, detail: seq<Member>, decodes: Number -> bool)
    requires NamespaceName(incident) && PyText(id) && 1 <= |id| <= 128
    requires PyMembers(detail, decodes) && MembersInOrder(detail)
    ensures Admitted(Observation(incident, id, detail), incident, decodes)
  {
    hide Less, PyMembers, MembersInOrder;
    var e := Observation(incident, id, detail);
    FieldsInOrder();
    FieldsPy();
    hide FIELDS;
    var ms := Record(Values(e));
    forall i | 0 <= i < |ms| ensures PyValue(ms[i].value, decodes) && InOrder(ms[i].value) {
    }
    PyMembersAt(ms, decodes);
    MembersInOrderAt(ms);
  }

  // A split identifier is not found again, so an identical retry writes a second line, and the log is
  // unreadable for good.
  lemma SplitIdentifier(file: Text, e: Entry, events: seq<Event>, log: Log)
    requires Admitted(e, log.incident, log.decodes) && Join(Id(e)) != Id(e) && NamesSurvive(ToJson(e))
    requires Records(file, log).Yes?
    requires Id(e) !in Ids(Records(file, log).value) && Join(Id(e)) !in Ids(Records(file, log).value)
    ensures Decide(file + Line(e), e, log.incident, log.decodes).Write?
    ensures Records(file + Line(e) + Line(e), log).No?
    ensures RecoveryRuns.Run(State(file + Line(e) + Line(e), Idle), events, log) == State(file + Line(e) + Line(e), Idle)
  {
    hide Read, RecoveryRuns.Run, Line, ToJson, PyValue, InOrder, NamesSurvive, Loaded, Join;
    var records := Records(file, log).value;
    AppendedReads(file, e, log.incident, log.decodes);
    LoadedValid(e, log.incident, log.decodes);
    IdsConcat(records, [Loaded(e)]);
    assert Ids([Loaded(e)]) == {Join(Id(e))} by { assert [Loaded(e)][1..] == []; }
    CompareWrites(records + [Loaded(e)], e);
    AppendedReads(file + Line(e), e, log.incident, log.decodes);
    UnreadableForever(State(file + Line(e) + Line(e), Idle), events, log);
  }

  lemma SplitIdentifierHappens(log: Log)
    requires NamespaceName(log.incident)
    ensures var e := Observation(log.incident, SPLIT, []);
      Admitted(e, log.incident, log.decodes) && Join(Id(e)) == WHOLE && NamesSurvive(ToJson(e)) && Fits(e, [], log)
  {
    var e := Observation(log.incident, SPLIT, []);
    ObservationAdmitted(log.incident, SPLIT, [], log.decodes);
    assert SPLIT[2..] == [];
    assert Join(SPLIT) == WHOLE;
    hide InOrder, JoinValue, NamesSurvive, PyValue, Join, FIELDS, Line, Read;
    EmptyDetailSurvives(e, log);
    ReadNothing(log.incident, log.decodes, {});
  }

  // With no dictionary inside, the names of a record survive.
  lemma EmptyDetailSurvives(e: Entry, log: Log)
    requires Admitted(e, log.incident, log.decodes) && e.detail == Obj([]) && !e.requestedCommand.Obj?
    ensures NamesSurvive(ToJson(e))
  {
    hide Less, JoinValue, Join, PyValue;
    var ms := Record(Values(e));
    FieldsInOrder();
    FieldsJoined();
    JoinMembersAt(ms);
    hide FIELDS;
    var js := JoinMembers(ms);
    forall i | 0 <= i < |js| ensures InOrder(js[i].value) {
      FlatInOrder(ms[i].value);
    }
    MembersInOrderAt(js);
    ObjJoin(ms);
    assert InOrder(JoinValue(ToJson(e)));
    OrderKeepsNames(ToJson(e), log.decodes);
  }

  lemma FlatInOrder(v: Json)
    requires v.Null? || v.Str? || v == Obj([])
    ensures InOrder(JoinValue(v))
  {
  }

  lemma ObjJoin(ms: seq<Member>)
    ensures JoinValue(Obj(ms)) == Obj(JoinMembers(ms))
  {
  }

  function TwoNames(a: Text, b: Text): seq<Member> { [Member(a, Null), Member(b, Null)] }

  lemma TwoNamesFacts(a: Text, b: Text, decodes: Number -> bool)
    ensures PyText(a) && PyText(b) ==> PyMembers(TwoNames(a, b), decodes)
    ensures MembersInOrder(TwoNames(a, b)) == Less(a, b)
    ensures MembersSurvive(TwoNames(a, b), {}) == (Join(a) != Join(b))
    ensures JoinMembers(TwoNames(a, b)) == TwoNames(Join(a), Join(b))
  {
    hide Less, Join, PyText;
    var ms, last := TwoNames(a, b), [Member(b, Null)];
    assert ms[1..] == last && last[1..] == [];
    assert PyText(b) ==> PyMembers(last, decodes);
    assert MembersInOrder(last);
    assert MembersSurvive(last, {} + {Join(a)}) == (Join(a) != Join(b));
    assert JoinMembers(last) == [Member(Join(b), Null)];
  }

  // The names used below, and how they read back.
  lemma Names()
    ensures Less(SPLIT, WHOLE) && Less(SPLIT, PRIVATE_USE) && !Less(WHOLE, PRIVATE_USE)
    ensures Join(SPLIT) == WHOLE && Join(WHOLE) == WHOLE && Join(PRIVATE_USE) == PRIVATE_USE
    ensures PyText(SPLIT) && PyText(WHOLE) && PyText(PRIVATE_USE)
  {
    assert SPLIT[2..] == [] && WHOLE[1..] == [] && PRIVATE_USE[1..] == [];
  }

  // Two names that read back alike: the line that append has just written is refused by the next reader.
  lemma CollidingNamesHappen(log: Log)
    requires NamespaceName(log.incident)
    ensures var e := Observation(log.incident, [0x61], TwoNames(SPLIT, WHOLE));
      && Admitted(e, log.incident, log.decodes) && Decide([], e, log.incident, log.decodes).Write?
      && Records(Line(e), log).No?
  {
    hide InOrder, JoinValue, PyValue, Join, FIELDS, Line, Read, MembersSurvive, Less, TwoNames;
    var detail := TwoNames(SPLIT, WHOLE);
    var e := Observation(log.incident, [0x61], detail);
    Names();
    TwoNamesFacts(SPLIT, WHOLE, log.decodes);
    ObservationAdmitted(log.incident, [0x61], detail, log.decodes);
    NotSurviving(e, detail);
    ReadNothing(log.incident, log.decodes, {});
    AppendedReads([], e, log.incident, log.decodes);
    assert [] + Line(e) == Line(e);
  }

  lemma NotSurviving(e: Entry, detail: seq<Member>)
    requires e.detail == Obj(detail) && !MembersSurvive(detail, {})
    ensures !NamesSurvive(ToJson(e))
  {
    FieldsInOrder();
    hide FIELDS, MembersSurvive;
    var ms := Record(Values(e));
    assert ms[2].value == e.detail;
    if MembersSurvive(ms, {}) {
      ValuesSurvive(ms, {}, 2);
    }
  }

  // Two names that change places: the author's identical retry is refused as a conflict.
  lemma ReorderedNamesHappen(log: Log)
    requires NamespaceName(log.incident)
    ensures var e := Observation(log.incident, [0x61], TwoNames(SPLIT, PRIVATE_USE));
      && Admitted(e, log.incident, log.decodes) && Decide([], e, log.incident, log.decodes).Write?
      && !Decide(Line(e), e, log.incident, log.decodes).Original?
  {
    hide InOrder, JoinValue, PyValue, Join, FIELDS, Line, Read, MembersInOrder, JoinMembers, Less, TwoNames;
    var detail := TwoNames(SPLIT, PRIVATE_USE);
    var e := Observation(log.incident, [0x61], detail);
    Names();
    TwoNamesFacts(SPLIT, PRIVATE_USE, log.decodes);
    TwoNamesFacts(WHOLE, PRIVATE_USE, log.decodes);
    ObservationAdmitted(log.incident, [0x61], detail, log.decodes);
    NotInOrder(e, detail);
    ReadNothing(log.incident, log.decodes, {});
    RetryExact([], e, log.incident, log.decodes);
    assert [] + Line(e) == Line(e);
  }

  lemma NotInOrder(e: Entry, detail: seq<Member>)
    requires e.detail == Obj(detail) && !MembersInOrder(JoinMembers(detail))
    ensures !InOrder(JoinValue(ToJson(e)))
  {
    FieldsInOrder();
    hide FIELDS, MembersInOrder, Join, InOrder;
    var ms := Record(Values(e));
    JoinMembersAt(ms);
    assert ms[2].value == e.detail;
    ObjJoin(ms);
    OrderOfObject(JoinMembers(ms));
    OrderOfObject(JoinMembers(detail));
    if MembersInOrder(JoinMembers(ms)) {
      ValuesInOrder(JoinMembers(ms), 2);
    }
  }

  lemma OrderOfObject(ms: seq<Member>)
    ensures InOrder(Obj(ms)) == MembersInOrder(ms)
  {
  }
}
