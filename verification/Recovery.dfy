/**
 The recovery log of vuoro_client/recovery.py: one incident, one file of JSON lines.

 The file is its decoded text.  `decodes` says which number spellings the interpreter turns into numbers.
 */
module Recovery {
  import opened Basics
  import opened Unicode
  import opened JsonValues
  import opened JsonSyntax
  import opened AsciiDump
  import opened RecoveryRecords

  /******* Reading *******/

  // The text up to and including the first line feed, or all of it.
  function FirstLine(s: Text): (line: Text)
    ensures |line| <= |s| && line == s[..|line|] && (s != [] ==> line != [])
  {
    if s == [] then []
    else if s[0] == NEWLINE then [NEWLINE]
    else
      var more := FirstLine(s[1..]);
      assert s[..1 + |more|] == [s[0]] + s[1..][..|more|];
      [s[0]] + more
  }

  // A dictionary in key order has exactly the fields of a record when its names are these, in this order.
  function ReadLine(line: Text, incident: Text, decodes: Number -> bool): (r: Outcome<Entry>)
    ensures r.Yes? ==> Valid(r.value, incident)
  {
    match Load(line, decodes)
    case No => No
    case Yes(v) =>
      if !v.Obj? || Keys(v.members) != FIELDS then No
      else
        var e := FromJson(v.members);
        if Valid(e, incident) then Yes(e) else No
  }

  function Id(e: Entry): Text
    requires e.recordId.Str?
  {
    e.recordId.s
  }

  function Push(e: Entry, r: Outcome<seq<Entry>>): Outcome<seq<Entry>> {
    if r.Yes? then Yes([e] + r.value) else No
  }

  // The records of a file, refused for an incomplete line, an invalid one or a repeated identifier.
  function Read(file: Text, incident: Text, decodes: Number -> bool, seen: set<Text>): (r: Outcome<seq<Entry>>)
    ensures r.Yes? ==> forall i :: 0 <= i < |r.value| ==> Valid(r.value[i], incident)
    decreases |file|
  {
    if file == [] then Yes([])
    else
      var line := FirstLine(file);
      if line[|line| - 1] != NEWLINE then No
      else
        match ReadLine(line, incident, decodes)
        case No => No
        case Yes(e) =>
          if Id(e) in seen then No else Push(e, Read(file[|line|..], incident, decodes, seen + {Id(e)}))
  }

  /******* Appending *******/

  // What an append does once it holds the lock.
  datatype Decision = Refuse | Original(previous: Entry) | Write

  function Compare(records: seq<Entry>, e: Entry): (d: Decision)
    requires e.recordId.Str?
    ensures d.Original? ==> d.previous in records
  {
    if records == [] then Write
    else if records[0].recordId == e.recordId then
      if Line(records[0]) == Line(e) then Original(records[0]) else Refuse
    else Compare(records[1..], e)
  }

  function Decide(file: Text, e: Entry, incident: Text, decodes: Number -> bool): Decision
    requires e.recordId.Str?
  {
    match Read(file, incident, decodes, {})
    case No => Refuse
    case Yes(records) => Compare(records, e)
  }

  // The entry an append is asked to write.
  function Authored(
    incident: Text, recordKind: Json, summary: Json, createdAt: Json, basisRevision: Json,
    detail: Json, requestedCommand: Json, recordId: Json, uuid: Text): Entry
  {
    Entry(basisRevision, createdAt, if detail.Null? then Obj([]) else detail, Str(incident),
          if recordId.Null? then Str(uuid) else recordId, recordKind, requestedCommand, summary)
  }

  // The tests on the arguments that come before the entry is made.
  predicate ArgumentsOk(recordKind: Json, requestedCommand: Json, recordId: Json) {
    && (recordKind == OBSERVATION || recordKind == REQUESTED_COMMAND)
    && (recordId.Null? || (recordId.Str? && recordId.s != [] && |recordId.s| <= 128))
    && !(recordKind == REQUESTED_COMMAND && requestedCommand.Null?)
    && !(recordKind == OBSERVATION && !requestedCommand.Null?)
  }

  // They refuse nothing that the validation of the entry would let through.
  lemma ArgumentsOfValid(e: Entry, incident: Text, recordId: Json, uuid: Text)
    requires Valid(e, incident) ==> e.recordId == if recordId.Null? then Str(uuid) else recordId
    ensures Valid(e, incident) ==> ArgumentsOk(e.recordKind, e.requestedCommand, recordId)
  {
    hide ToText;
  }

  // The added text loads as a record that holds each argument, as it reads back, under its own name: without a detail
  // the empty dictionary, and without an identifier the new one.
  ghost predicate Wrote(
    added: Text, decodes: Number -> bool, incident: Text, recordKind: Json, summary: Json, createdAt: Json,
    basisRevision: Json, detail: Json, requestedCommand: Json, recordId: Json, uuid: Text)
  {
    && Intact(recordKind, decodes) && Intact(summary, decodes) && Intact(createdAt, decodes) && Intact(basisRevision, decodes)
    && Intact(detail, decodes) && Intact(requestedCommand, decodes) && Intact(recordId, decodes)
    && Intact(Str(uuid), decodes) && Intact(Str(incident), decodes)
    ==>
      var loaded := Load(added, decodes);
      loaded.Yes? &&
      HasFields(loaded.value, Back(basisRevision), Back(createdAt), if detail.Null? then Obj([]) else Back(detail),
                Back(Str(incident)), if recordId.Null? then Back(Str(uuid)) else Back(recordId), Back(recordKind),
                Back(requestedCommand), Back(summary))
  }

  // The kinds that a record can have, and what each says of the command.
  ghost predicate KindFits(recordKind: Json, requestedCommand: Json) {
    recordKind.Str? &&
    if requestedCommand.Null? then Spells(recordKind.s, "observation")
    else requestedCommand.Obj? && Spells(recordKind.s, "requested-command")
  }

  lemma AuthoredWrites(
    incident: Text, decodes: Number -> bool, recordKind: Json, summary: Json, createdAt: Json, basisRevision: Json,
    detail: Json, requestedCommand: Json, recordId: Json, uuid: Text)
    ensures var e := Authored(incident, recordKind, summary, createdAt, basisRevision, detail, requestedCommand, recordId, uuid);
      Wrote(Line(e), decodes, incident, recordKind, summary, createdAt, basisRevision, detail, requestedCommand, recordId, uuid)
  {
    hide Load, Line, HasFields, Back, Intact;
    var e := Authored(incident, recordKind, summary, createdAt, basisRevision, detail, requestedCommand, recordId, uuid);
    if forall i :: 0 <= i < |FIELDS| ==> Intact(Values(e)[i], decodes) {
      LineHolds(e, decodes);
      NamedFields(Loaded(e));
    }
    NothingBack();
    NothingIntact(decodes);
  }

  lemma ValidKind(e: Entry, incident: Text)
    requires Valid(e, incident)
    ensures KindFits(e.recordKind, e.requestedCommand)
  {
  }

  lemma NothingIntact(decodes: Number -> bool)
    ensures Intact(Obj([]), decodes)
  {
  }

  lemma NothingBack()
    ensures Back(Obj([])) == Obj([])
  {
  }

  function PrependAll(front: seq<Entry>, r: Outcome<seq<Entry>>): Outcome<seq<Entry>> {
    if r.Yes? then Yes(front + r.value) else No
  }

  predicate NamespaceChar(c: int) {
    0x30 <= c <= 0x39 || 0x41 <= c <= 0x5A || 0x61 <= c <= 0x7A || c == 0x2E || c == 0x5F || c == 0x2D
  }

  // [A-Za-z0-9][A-Za-z0-9._-]{0,127}
  predicate NamespaceName(s: Text) {
    1 <= |s| <= 128 && (forall i :: 0 <= i < |s| ==> NamespaceChar(s[i])) && s[0] != 0x2E && s[0] != 0x5F && s[0] != 0x2D
  }

  // A code that is one of these characters.
  ghost predicate IsOneOf(c: int, s: string) { exists i :: 0 <= i < |s| && s[i] as int == c }

  lemma NamespaceCharMeans(c: int)
    ensures NamespaceChar(c) <==> IsOneOf(c, UPPER) || IsOneOf(c, LOWER) || IsOneOf(c, DIGITS) || IsOneOf(c, "._-")
    ensures IsOneOf(c, "._-") <==> c == 0x2E || c == 0x5F || c == 0x2D
  {
    AlphabetsAreAscii();
    var marks := "._-";
    assert marks[0] as int == 0x2E && marks[1] as int == 0x5F && marks[2] as int == 0x2D;
    hide UPPER, LOWER, DIGITS;
    OneOfMeans(c, UPPER);
    OneOfMeans(c, LOWER);
    OneOfMeans(c, DIGITS);
    if 0 <= c < 0x80 {
      UpperMeans(c as char);
      LowerMeans(c as char);
      DigitMeans(c as char);
    }
  }

  lemma AlphabetsAreAscii()
    ensures forall i :: 0 <= i < |UPPER| ==> UPPER[i] as int < 0x80
    ensures forall i :: 0 <= i < |LOWER| ==> LOWER[i] as int < 0x80
    ensures forall i :: 0 <= i < |DIGITS| ==> DIGITS[i] as int < 0x80
  {
  }

  lemma OneOfMeans(c: int, s: string)
    requires forall i :: 0 <= i < |s| ==> s[i] as int < 0x80
    ensures IsOneOf(c, s) <==> 0 <= c < 0x80 && c as char in s
  {
    if IsOneOf(c, s) {
      var i :| 0 <= i < |s| && s[i] as int == c;
      assert s[i] == c as char;
    }
    if 0 <= c < 0x80 && c as char in s {
      var i :| 0 <= i < |s| && s[i] == c as char;
      assert s[i] as int == c;
    }
  }

  // The name of an incident: a letter or digit, and at most 127 letters, digits, dots, underscores and hyphens.
  lemma NamespaceMeans(s: Text)
    ensures NamespaceName(s) <==>
      && 1 <= |s| <= 128 && (IsOneOf(s[0], UPPER) || IsOneOf(s[0], LOWER) || IsOneOf(s[0], DIGITS))
      && forall i :: 1 <= i < |s| ==> IsOneOf(s[i], UPPER) || IsOneOf(s[i], LOWER) || IsOneOf(s[i], DIGITS) || IsOneOf(s[i], "._-")
  {
    hide NamespaceChar, IsOneOf, UPPER, LOWER, DIGITS;
    forall i | 0 <= i < |s| ensures NamespaceChar(s[i]) <==>
      IsOneOf(s[i], UPPER) || IsOneOf(s[i], LOWER) || IsOneOf(s[i], DIGITS) || IsOneOf(s[i], "._-")
    {
      NamespaceCharMeans(s[i]);
    }
    if s != [] {
      NamespaceCharMeans(s[0]);
      if s[0] == 0x2E || s[0] == 0x5F || s[0] == 0x2D {
        MarksApart(s[0]);
      }
    }
  }

  // No mark is a letter or a digit.
  lemma MarksApart(c: int)
    requires c == 0x2E || c == 0x5F || c == 0x2D
    ensures !IsOneOf(c, UPPER) && !IsOneOf(c, LOWER) && !IsOneOf(c, DIGITS)
  {
    AlphabetsAreAscii();
    hide UPPER, LOWER, DIGITS, IsOneOf;
    OneOfMeans(c, UPPER);
    OneOfMeans(c, LOWER);
    OneOfMeans(c, DIGITS);
    UpperMeans(c as char);
    LowerMeans(c as char);
    DigitMeans(c as char);
  }

  class RecoveryLog {
    const incident: Text
    const decodes: Number -> bool
    var file: Text

    constructor (incident: Text, decodes: Number -> bool, file: Text)
      requires NamespaceName(incident)
      ensures this.incident == incident && this.decodes == decodes && this.file == file
    {
      this.incident := incident;
      this.decodes := decodes;
      this.file := file;
    }

    method ReadRecords() returns (r: Outcome<seq<Entry>>)
      ensures r == Read(file, incident, decodes, {})
    {
      hide ReadLine, FirstLine;
      var result: seq<Entry> := [];
      var seen: set<Text> := {};
      var rest := file;
      assert forall more: seq<Entry> :: [] + more == more;
      while rest != []
        invariant Read(file, incident, decodes, {}) == PrependAll(result, Read(rest, incident, decodes, seen))
        decreases |rest|
      {
        var line := FirstLine(rest);
        if line[|line| - 1] != NEWLINE {
          return No;
        }
        var entry := ReadLine(line, incident, decodes);
        if entry.No? || Id(entry.value) in seen {
          return No;
        }
        rest := rest[|line|..];
        seen := seen + {Id(entry.value)};
        assert forall more: seq<Entry> :: (result + [entry.value]) + more == result + ([entry.value] + more);
        result := result + [entry.value];
      }
      assert result + [] == result;
      return Yes(result);
    }

    // A refusal leaves the file alone, and so does the retry of a record that is already there.
    method Append(
      recordKind: Json, summary: Json, createdAt: Json, basisRevision: Json,
      detail: Json, requestedCommand: Json, recordId: Json, uuid: Text) returns (r: Outcome<Entry>)
      modifies this`file
      ensures var e := Authored(incident, recordKind, summary, createdAt, basisRevision, detail, requestedCommand, recordId, uuid);
        if !Valid(e, incident) || Decide(old(file), e, incident, decodes).Refuse? then r == No && file == old(file)
        else if Decide(old(file), e, incident, decodes).Write? then r == Yes(e) && file == old(file) + Line(e)
        else r == Yes(Decide(old(file), e, incident, decodes).previous) && file == old(file)
      ensures old(file) <= file
      ensures file != old(file) ==> KindFits(recordKind, requestedCommand)
      ensures file != old(file) ==>
        Wrote(file[|old(file)|..], decodes, incident, recordKind, summary, createdAt, basisRevision, detail, requestedCommand, recordId, uuid)
      ensures file != old(file) ==>
        && r.Yes? && r.value.recordKind == recordKind && r.value.summary == summary && r.value.createdAt == createdAt
        && r.value.basisRevision == basisRevision && r.value.detail == (if detail.Null? then Obj([]) else detail)
        && r.value.requestedCommand == requestedCommand && r.value.incidentId == Str(incident)
        && r.value.recordId == if recordId.Null? then Str(uuid) else recordId
    {
      hide Line, Read, Compare, ToText, ArgumentsOk, Wrote, KindFits;
      AuthoredWrites(incident, decodes, recordKind, summary, createdAt, basisRevision, detail, requestedCommand, recordId, uuid);
      var e := Authored(incident, recordKind, summary, createdAt, basisRevision, detail, requestedCommand, recordId, uuid);
      ArgumentsOfValid(e, incident, recordId, uuid);
      if !ArgumentsOk(recordKind, requestedCommand, recordId) || !Valid(e, incident) {
        return No;
      }
      ValidKind(e, incident);
      var data := Line(e);
      var existing := ReadRecords();
      if existing.No? {
        return No;
      }
      var decision := Search(existing.value, e, data);
      if decision.Refuse? {
        return No;
      }
      if decision.Original? {
        return Yes(decision.previous);
      }
      assert (file + data)[|file|..] == data;
      file := file + data;
      return Yes(e);
    }
  }

  // The record an append finds under its own identifier.
  method Search(existing: seq<Entry>, e: Entry, data: Text) returns (d: Decision)
    requires e.recordId.Str? && data == Line(e)
    ensures d == Compare(existing, e)
  {
    hide Line;
    var i := 0;
    assert existing[0..] == existing;
    while i < |existing|
      invariant 0 <= i <= |existing|
      invariant Compare(existing, e) == Compare(existing[i..], e)
    {
      var previous := existing[i];
      assert existing[i..][0] == previous && existing[i..][1..] == existing[i + 1..];
      if previous.recordId == e.recordId {
        return if Line(previous) == data then Original(previous) else Refuse;
      }
      i := i + 1;
    }
    return Decision.Write;
  }

  // Opens the incident on what an earlier process left in the file.
  method Open(incident: Text, decodes: Number -> bool, file: Text) returns (r: Outcome<RecoveryLog>)
    ensures r.Yes? <==> NamespaceName(incident)
    ensures r.Yes? ==> fresh(r.value) && r.value.incident == incident && r.value.decodes == decodes && r.value.file == file
  {
    if !NamespaceName(incident) {
      return No;
    }
    var log := new RecoveryLog(incident, decodes, file);
    return Yes(log);
  }
}
