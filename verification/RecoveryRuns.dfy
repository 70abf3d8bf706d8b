/**
 Every run of the recovery log: appenders that take the lock one at a time, readers, and processes that
 die in the middle of a write.  Characters that reached the file stay there.
 */
module RecoveryRuns {
  import opened Unicode
  import opened JsonValues
  import opened JsonSyntax
  import opened AsciiCodec
  import opened AsciiDump
  import opened DumpOrder
  import opened RecoveryRecords
  import opened Recovery
  import opened RecoveryFacts

  // The lock holder has still to write `rest` of the line of its entry.
  datatype Holder = Idle | Writing(entry: Entry, rest: Text)

  datatype State = State(file: Text, holder: Holder)

  datatype Event =
    | Begin(entry: Entry)   // an appender gets the lock, reads the file and decides
    | Flush(n: nat)         // at most n more characters reach the file; the lock goes with the last one
    | Crash                 // the holder dies
    | Look                  // a reader gets the lock

  datatype Log = Log(incident: Text, decodes: Number -> bool)

  // An event that the lock or a refusal holds back changes nothing.
  function Step(s: State, ev: Event, log: Log): State {
    match ev
    case Begin(e) =>
      if s.holder.Idle? && Valid(e, log.incident) && Decide(s.file, e, log.incident, log.decodes).Write?
      then s.(holder := Writing(e, Line(e))) else s
    case Flush(n) =>
      if s.holder.Idle? then s
      else
        var k := if n < |s.holder.rest| then n else |s.holder.rest|;
        State(s.file + s.holder.rest[..k], if k == |s.holder.rest| then Idle else Writing(s.holder.entry, s.holder.rest[k..]))
    case Crash => s.(holder := Idle)
    case Look => s
  }

  function Run(s: State, events: seq<Event>, log: Log): State
    decreases |events|
  {
    if events == [] then s else Run(Step(s, events[0], log), events[1..], log)
  }

  function Records(file: Text, log: Log): Outcome<seq<Entry>> { Read(file, log.incident, log.decodes, {}) }

  // An append that is not interrupted.
  lemma UninterruptedAppend(file: Text, e: Entry, log: Log)
    requires Valid(e, log.incident)
    ensures var written := Decide(file, e, log.incident, log.decodes).Write?;
      Run(State(file, Idle), [Begin(e), Flush(|Line(e)|)], log) == State(if written then file + Line(e) else file, Idle)
  {
    hide Decide, Line;
    var s, events := State(file, Idle), [Begin(e), Flush(|Line(e)|)];
    var t := Step(s, Begin(e), log);
    assert events[1..] == [Flush(|Line(e)|)] && [Flush(|Line(e)|)][1..] == [];
    assert Run(s, events, log) == Run(t, [Flush(|Line(e)|)], log) == Step(t, Flush(|Line(e)|), log);
  }

  /******* What holds of every run, whatever is appended *******/

  // Nothing that reached the file is ever changed.
  lemma {:induction false} OldContentsStay(s: State, events: seq<Event>, log: Log)
    ensures s.file <= Run(s, events, log).file
    decreases |events|
  {
    if events != [] {
      OldContentsStay(Step(s, events[0], log), events[1..], log);
    }
  }

  // Once a file is unreadable, every append is refused and the file never changes.
  lemma {:induction false} UnreadableForever(s: State, events: seq<Event>, log: Log)
    requires s.holder.Idle? && Records(s.file, log).No?
    ensures Run(s, events, log) == s
    ensures forall e: Entry :: e.recordId.Str? ==> Decide(s.file, e, log.incident, log.decodes).Refuse?
  {
    if events != [] {
      UnreadableForever(s, events[1..], log);
    }
  }

  // A torn tail makes a file unreadable for good.
  lemma TornForever(s: State, events: seq<Event>, log: Log)
    requires s.holder.Idle? && s.file != [] && s.file[|s.file| - 1] != NEWLINE
    ensures Run(s, events, log) == s && Records(s.file, log).No?
    ensures forall e: Entry :: e.recordId.Str? ==> Decide(s.file, e, log.incident, log.decodes).Refuse?
  {
    TornIsUnreadable(s.file, log.incident, log.decodes, {});
    UnreadableForever(s, events, log);
  }

  /******* The shape of the log *******/

  // The file up to its last line feed, and what follows it.
  function Body(file: Text): (body: Text)
    ensures body <= file
    ensures body == file || NEWLINE !in file[|body|..]
    ensures body == [] || body[|body| - 1] == NEWLINE
  {
    if file == [] || file[|file| - 1] == NEWLINE then file
    else
      var body := Body(file[..|file| - 1]);
      assert file[|body|..] == file[..|file| - 1][|body|..] + [file[|file| - 1]];
      body
  }

  function Tail(file: Text): Text { file[|Body(file)|..] }

  lemma BodyStep(file: Text, c: int)
    requires c != NEWLINE
    ensures Body(file + [c]) == Body(file) && Tail(file + [c]) == Tail(file) + [c]
  {
    assert (file + [c])[..|file + [c]| - 1] == file;
  }

  lemma {:induction false} BodyStays(file: Text, t: Text)
    requires NEWLINE !in t
    ensures Body(file + t) == Body(file) && Tail(file + t) == Tail(file) + t
    decreases |t|
  {
    hide Body, Tail;
    if t == [] {
      assert file + t == file && Tail(file) + t == Tail(file);
    } else {
      var u := t[1..];
      assert t == [t[0]] + u && file + t == (file + [t[0]]) + u;
      BodyStep(file, t[0]);
      BodyStays(file + [t[0]], u);
    }
  }

  lemma BodyOfComplete(file: Text)
    requires file == [] || file[|file| - 1] == NEWLINE
    ensures Body(file) == file && Tail(file) == []
  {
  }

  // A file reads exactly when it has no torn tail and its complete lines read.
  lemma ReadsWhole(file: Text, log: Log)
    ensures Records(file, log) == if Tail(file) == [] then Records(Body(file), log) else No
  {
    hide Read;
    if Tail(file) == [] {
      assert Body(file) == file;
    } else {
      TornIsUnreadable(file, log.incident, log.decodes, {});
    }
  }

  /******* Lines that stay readable *******/

  // The line of the entry leaves a file of complete lines readable: no two names of a dictionary read back
  // alike, and the identifier, as it reads back, is new.
  ghost predicate Fits(e: Entry, file: Text, log: Log) {
    && e.recordId.Str? && Records(file, log).Yes? && NamesSurvive(ToJson(e))
    && Join(Id(e)) !in Ids(Records(file, log).value)
  }

  // Complete lines that read, and then a torn tail or the beginning of the line being written.
  ghost predicate Sound(s: State, log: Log) {
    Records(Body(s.file), log).Yes? && (s.holder.Writing? ==> InFlight(s, log))
  }

  ghost predicate InFlight(s: State, log: Log)
    requires s.holder.Writing?
  {
    && Admitted(s.holder.entry, log.incident, log.decodes)
    && s.holder.rest != [] && Tail(s.file) + s.holder.rest == Line(s.holder.entry)
  }

  // The event writes the last character of a line.
  predicate Completes(s: State, ev: Event) { ev.Flush? && s.holder.Writing? && ev.n >= |s.holder.rest| }

  // No line that the run completes is one that cannot be read back.
  ghost predicate NoUnfitLine(s: State, events: seq<Event>, log: Log)
    decreases |events|
  {
    events == [] ||
    (&& (Completes(s, events[0]) ==> Fits(s.holder.entry, Body(s.file), log))
     && NoUnfitLine(Step(s, events[0], log), events[1..], log))
  }

  ghost predicate AllAdmitted(events: seq<Event>, log: Log) {
    forall i :: 0 <= i < |events| && events[i].Begin? && Valid(events[i].entry, log.incident) ==>
      Admitted(events[i].entry, log.incident, log.decodes)
  }

  lemma BeginIsSound(s: State, e: Entry, log: Log)
    requires Sound(s, log) && (Valid(e, log.incident) ==> Admitted(e, log.incident, log.decodes))
    ensures var t := Step(s, Begin(e), log); Sound(t, log) && t.file == s.file
  {
    hide Read, Line, Admitted, Body;
    var t := Step(s, Begin(e), log);
    if t != s {
      ReadsWhole(s.file, log);
      LineEnds(e);
      assert [] + Line(e) == Line(e);
    }
  }

  lemma Glue(file: Text, rest: Text)
    ensures file + rest == Body(file) + (Tail(file) + rest)
  {
    hide Body;
    assert file == Body(file) + Tail(file);
  }

  lemma CompleteAfter(body: Text, e: Entry)
    ensures Body(body + Line(e)) == body + Line(e) && Tail(body + Line(e)) == []
  {
    hide Line;
    LineEnds(e);
    BodyOfComplete(body + Line(e));
  }

  lemma PartStep(s: State, n: nat, log: Log)
    requires s.holder.Writing? && n < |s.holder.rest|
    ensures var rest := s.holder.rest;
      Step(s, Flush(n), log) == State(s.file + rest[..n], Writing(s.holder.entry, rest[n..]))
  {
  }

  lemma Regroup(tail: Text, rest: Text, n: nat)
    requires n <= |rest|
    ensures (tail + rest[..n]) + rest[n..] == tail + rest
  {
    assert rest[..n] + rest[n..] == rest;
  }

  lemma PartOfLine(s: State, n: nat, log: Log)
    requires Sound(s, log) && s.holder.Writing? && n < |s.holder.rest|
    ensures var t := Step(s, Flush(n), log); Sound(t, log) && Body(t.file) == Body(s.file)
  {
    hide Records, Line, Body, Tail, Admitted, Step;
    var e, rest, tail := s.holder.entry, s.holder.rest, Tail(s.file);
    PartStep(s, n, log);
    LineBeginning(e, tail, rest, n, log);
    BodyStays(s.file, rest[..n]);
    Regroup(tail, rest, n);
  }

  // A completed line is readable exactly when it fits.
  lemma EndOfLine(s: State, n: nat, log: Log)
    requires Sound(s, log) && Completes(s, Flush(n))
    ensures var t, e, records := Step(s, Flush(n), log), s.holder.entry, Records(Body(s.file), log).value;
      && t.holder.Idle? && Tail(t.file) == [] && t.file == Body(s.file) + Line(e)
      && Records(t.file, log) == if Fits(e, Body(s.file), log) then Yes(records + [Loaded(e)]) else No
  {
    hide Read, Line, Body, Tail, NamesSurvive, Admitted, Join, Loaded;
    var t, e, rest := Step(s, Flush(n), log), s.holder.entry, s.holder.rest;
    assert t == State(s.file + rest, Idle) by { assert rest[..|rest|] == rest; }
    Glue(s.file, rest);
    CompleteAfter(Body(s.file), e);
    AppendedReads(Body(s.file), e, log.incident, log.decodes);
    AdmittedId(e, log);
  }

  lemma AdmittedId(e: Entry, log: Log)
    requires Admitted(e, log.incident, log.decodes)
    ensures e.recordId.Str?
  {
  }

  // What has been written of a line before its end holds no line feed.
  lemma LineBeginning(e: Entry, tail: Text, rest: Text, n: nat, log: Log)
    requires Admitted(e, log.incident, log.decodes) && tail + rest == Line(e) && n < |rest|
    ensures NEWLINE !in rest[..n]
  {
    hide Dump, ToJson, PyValue;
    LineIsOneLine(e, [], log.incident, log.decodes);
    var d := Dump(ToJson(e));
    forall i | 0 <= i < n ensures rest[i] != NEWLINE {
      assert rest[i] == (tail + rest)[|tail| + i] == d[|tail| + i];
    }
  }

  // One event keeps the log sound and its records, unless it completes a line that does not fit: that closes the log.
  lemma StepOutcome(s: State, ev: Event, log: Log)
    requires Sound(s, log)
    requires ev.Begin? && Valid(ev.entry, log.incident) ==> Admitted(ev.entry, log.incident, log.decodes)
    ensures var t := Step(s, ev, log);
      if Completes(s, ev) && !Fits(s.holder.entry, Body(s.file), log)
      then t.holder.Idle? && Tail(t.file) == [] && Records(t.file, log).No?
      else Sound(t, log) && Records(Body(s.file), log).value <= Records(Body(t.file), log).value
  {
    hide Read, Body, Admitted, Line, Fits, Loaded;
    match ev
    case Begin(e) => BeginIsSound(s, e, log);
    case Flush(n) =>
      if Completes(s, ev) {
        EndOfLine(s, n, log);
        ReadsWhole(Step(s, ev, log).file, log);
      } else if s.holder.Writing? {
        PartOfLine(s, n, log);
      }
    case _ =>
  }

  // Over every run of appenders, readers and crashes: the log stays sound exactly when every completed line
  // fits.  Then no committed record is lost or altered; otherwise the first unfit line has closed the log.
  lemma {:induction false} RunsAreSound(s: State, events: seq<Event>, log: Log)
    requires Sound(s, log) && AllAdmitted(events, log)
    ensures var t := Run(s, events, log);
      && (Sound(t, log) <==> NoUnfitLine(s, events, log))
      && (if NoUnfitLine(s, events, log)
          then Records(Body(t.file), log).Yes? && Records(Body(s.file), log).value <= Records(Body(t.file), log).value
          else t.holder.Idle? && Tail(t.file) == [] && Records(t.file, log).No?)
    decreases |events|
  {
    if events != [] {
      hide Read, Body, Step, InFlight, Records, Fits, Admitted;
      assert forall i :: 0 <= i < |events[1..]| ==> events[1..][i] == events[i + 1];
      StepOutcome(s, events[0], log);
      var next := Step(s, events[0], log);
      if Sound(next, log) {
        RunsAreSound(next, events[1..], log);
      } else {
        UnreadableForever(next, events[1..], log);
        NotSound(next, log);
      }
    }
  }

  lemma NotSound(s: State, log: Log)
    requires Records(s.file, log).No? && Tail(s.file) == []
    ensures !Sound(s, log)
  {
    hide Read;
    ReadsWhole(s.file, log);
  }

  // From the empty file: the complete lines read, with pairwise distinct identifiers, exactly when every completed
  // line fits; the tail after them holds no line feed.  Once a crash has left a tail or a line that does not fit was
  // completed, the file is unreadable and never changes again.
  lemma RunsFromEmpty(events: seq<Event>, more: seq<Event>, log: Log)
    requires AllAdmitted(events, log)
    ensures var t := Run(State([], Idle), events, log);
      && t.file == Body(t.file) + Tail(t.file) && NEWLINE !in Tail(t.file)
      && (Records(Body(t.file), log).Yes? <==> NoUnfitLine(State([], Idle), events, log))
      && (Records(Body(t.file), log).Yes? ==>
            var records := Records(Body(t.file), log).value;
            forall i, j :: 0 <= i < j < |records| ==> Id(records[i]) != Id(records[j]))
      && (t.holder.Idle? ==>
            (Records(t.file, log).Yes? <==> Tail(t.file) == [] && NoUnfitLine(State([], Idle), events, log)))
      && (t.holder.Idle? && Records(t.file, log).No? ==> Run(t, more, log) == t)
      && (!NoUnfitLine(State([], Idle), events, log) ==> t.holder.Idle?)
  {
    hide Read, Admitted, Run, Fits, NoUnfitLine;
    var s := State([], Idle);
    ReadNothing(log.incident, log.decodes, {});
    assert Sound(s, log);
    RunsAreSound(s, events, log);
    var t := Run(s, events, log);
    ReadsWhole(t.file, log);
    if Records(Body(t.file), log).Yes? {
      RecordsDistinct(Body(t.file), log.incident, log.decodes, {});
    }
    if t.holder.Idle? && Records(t.file, log).No? {
      UnreadableForever(t, more, log);
    }
  }

  /******* Retries *******/

  // The record that a retry of `e` finds at its own place, and what comes of it.
  lemma RetryAt(file: Text, e: Entry, k: nat, log: Log)
    requires Admitted(e, log.incident, log.decodes) && NamesSurvive(ToJson(e)) && Records(file, log).Yes?
    requires k < |Records(file, log).value| && Records(file, log).value[k] == Loaded(e)
    ensures Decide(file, e, log.incident, log.decodes) == Original(Loaded(e)) <==>
      Join(Id(e)) == Id(e) && InOrder(JoinValue(ToJson(e)))
  {
    hide Dump, Read, ToJson, PyValue, InOrder, JoinValue, NamesSurvive, Loaded, Join;
    var v := ToJson(e);
    LoadedValid(e, log.incident, log.decodes);
    if Join(Id(e)) == Id(e) {
      LoadedFacts(v, log.decodes);
      LoadedJson(e);
      RetryCompared(file, e, k, log.incident, log.decodes);
      RedumpIsStable(v, log.decodes);
      DumpsAlike(Back(v), v, log.decodes);
    } else {
      OriginalHasId(Records(file, log).value, e);
    }
  }

  lemma {:induction false} OriginalHasId(records: seq<Entry>, e: Entry)
    requires e.recordId.Str?
    ensures Compare(records, e).Original? ==> Compare(records, e).previous.recordId == e.recordId
  {
    if records != [] {
      OriginalHasId(records[1..], e);
    }
  }

  // After an append, through every later run, whatever else is appended: its line stays.  The same append again
  // is refused when the log is no longer readable, and otherwise returns the original exactly when the identifier
  // reads back unchanged and joining keeps the key order.
  lemma AcknowledgedForever(file: Text, e: Entry, events: seq<Event>, log: Log)
    requires Admitted(e, log.incident, log.decodes) && Decide(file, e, log.incident, log.decodes).Write?
    ensures var t := Run(State(file + Line(e), Idle), events, log);
      && file + Line(e) <= t.file
      && (Records(t.file, log).Yes? ==> Loaded(e) in Records(t.file, log).value)
      && (Records(t.file, log).No? ==> Decide(t.file, e, log.incident, log.decodes).Refuse?)
      && (Decide(t.file, e, log.incident, log.decodes) == Original(Loaded(e)) <==>
          Records(t.file, log).Yes? && Join(Id(e)) == Id(e) && InOrder(JoinValue(ToJson(e))))
  {
    hide Read, Run, Line, ToJson, PyValue, InOrder, JoinValue, NamesSurvive, Loaded, Join;
    var s := State(file + Line(e), Idle);
    var t := Run(s, events, log);
    OldContentsStay(s, events, log);
    AppendedReads(file, e, log.incident, log.decodes);
    var records := Records(file, log).value;
    if Records(s.file, log).No? {
      UnreadableForever(s, events, log);
    } else {
      var more := t.file[|s.file|..];
      assert t.file == s.file + more;
      ReadConcat(s.file, more, log.incident, log.decodes, {});
      if Records(t.file, log).Yes? {
        var later := Records(t.file, log).value;
        assert later[|records|] == Loaded(e);
        RetryAt(t.file, e, |records|, log);
      }
    }
  }
}
