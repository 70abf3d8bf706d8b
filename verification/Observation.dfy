/**
 The observation state of vuoro_client/client.py: polling with opaque cursors, delivery of each event
 once, refusal of a cursor chain that goes back, reconnection, and transfer of the state.
 */
module Observation {
  import opened JsonValues
  import opened JsonSyntax

  datatype Event = Event(id: string, terminal: bool, data: Json)

  // What one invocation of the owner's operation brings back.
  datatype Reply =
    | Lost                                  // a timeout or a transport failure
    | Rejected(code: string)
    | Answer(reference: string, nextCursor: string, events: seq<Event>)

  datatype Observed = Observed(eventIds: set<string>, cursors: seq<string>)

  const NOTHING := Observed({}, [])
  const EXPIRED := "cursor_expired"

  function EventIds(events: seq<Event>): set<string> {
    if events == [] then {} else {events[0].id} + EventIds(events[1..])
  }

  // The events whose identifiers have not been seen, each at its first occurrence.
  function Fresh(events: seq<Event>, seen: set<string>): seq<Event> {
    if events == [] then []
    else if events[0].id in seen then Fresh(events[1..], seen)
    else [events[0]] + Fresh(events[1..], seen + {events[0].id})
  }

  function Last(s: seq<string>): string
    requires s != []
  {
    s[|s| - 1]
  }

  // The cursor chain goes back: the next cursor is a recorded one, and not the last.
  predicate Regresses(cursors: seq<string>, next: string) { next in cursors && next != Last(cursors) }

  predicate Accepted(o: Observed, reference: string, reply: Reply) {
    && reply.Answer? && reply.reference == reference && reply.nextCursor != ""
    && (forall i :: 0 <= i < |reply.events| ==> reply.events[i].id != "")
    && !Regresses(o.cursors, reply.nextCursor)
  }

  function AddCursor(cursors: seq<string>, c: string): seq<string> {
    if cursors != [] && Last(cursors) == c then cursors else cursors + [c]
  }

  // The state after a poll with `cursor`, and what the caller is given.
  function After(o: Observed, reference: string, cursor: string, reply: Reply): Observed {
    if Accepted(o, reference, reply)
    then Observed(o.eventIds + EventIds(reply.events), AddCursor(AddCursor(o.cursors, cursor), reply.nextCursor))
    else o
  }

  function Delivered(o: Observed, reference: string, reply: Reply): seq<Event> {
    if Accepted(o, reference, reply) then Fresh(reply.events, o.eventIds) else []
  }

  lemma {:induction false} FreshConcat(a: seq<Event>, b: seq<Event>, seen: set<string>)
    ensures Fresh(a + b, seen) == Fresh(a, seen) + Fresh(b, seen + EventIds(a))
    ensures EventIds(a + b) == EventIds(a) + EventIds(b)
  {
    if a == [] {
      assert a + b == b && seen + {} == seen;
    } else {
      assert (a + b)[1..] == a[1..] + b;
      var seen' := seen + {a[0].id};
      FreshConcat(a[1..], b, seen');
      FreshConcat(a[1..], b, seen);
      assert seen' + EventIds(a[1..]) == seen + EventIds(a);
      if a[0].id in seen {
        assert seen' == seen;
      }
    }
  }

  // Fresh events are new, and no two of them share an identifier; none is missing.
  lemma {:induction false} FreshOnce(events: seq<Event>, seen: set<string>)
    ensures var f := Fresh(events, seen);
      && (forall i :: 0 <= i < |f| ==> f[i].id !in seen && f[i].id in EventIds(events) && f[i] in events)
      && (forall i, j :: 0 <= i < j < |f| ==> f[i].id != f[j].id)
      && seen + EventIds(f) == seen + EventIds(events)
  {
    if events != [] {
      var id := events[0].id;
      if id in seen {
        FreshOnce(events[1..], seen);
      } else {
        FreshOnce(events[1..], seen + {id});
        var f, g := Fresh(events, seen), Fresh(events[1..], seen + {id});
        assert f == [events[0]] + g && f[1..] == g;
      }
    }
  }

  lemma {:induction false} FreshAll(events: seq<Event>, seen: set<string>)
    requires EventIds(events) !! seen && forall i, j :: 0 <= i < j < |events| ==> events[i].id != events[j].id
    ensures Fresh(events, seen) == events
  {
    if events != [] {
      EventIdsAt(events[1..]);
      FreshAll(events[1..], seen + {events[0].id});
      assert events == [events[0]] + events[1..];
    }
  }

  lemma {:induction false} EventIdsAt(events: seq<Event>)
    ensures forall id :: id in EventIds(events) <==> exists i :: 0 <= i < |events| && events[i].id == id
  {
    if events != [] {
      EventIdsAt(events[1..]);
      forall id ensures id in EventIds(events) <==> exists i :: 0 <= i < |events| && events[i].id == id {
        if id in EventIds(events[1..]) {
          var i :| 0 <= i < |events[1..]| && events[1..][i].id == id;
          assert events[i + 1].id == id;
        }
      }
    }
  }

  /******* The client *******/

  datatype Key = Key(kind: string, reference: string)

  datatype Snapshot = Snapshot(reference: string, cursor: string, terminal: bool)

  // What a wait ends in.
  datatype Ending = Terminal | TimedOut | Failed

  // What the network does to one turn of the wait loop, and to the snapshot the turn may ask for.
  datatype Turn = Turn(reply: Reply, snapshot: Outcome<Snapshot>)

  datatype Poll = Poll(cursor: string, reply: Reply)

  class Client {
    var state: map<Key, Observed>

    // A new client takes over an exported state.
    constructor (exported: map<Key, Exported>)
      ensures state == map k | k in exported :: Imported(exported[k])
    {
      state := map k | k in exported :: Imported(exported[k]);
    }

    function Of(key: Key): Observed
      reads this
    {
      if key in state then state[key] else NOTHING
    }

    // One poll.  A reply that is lost, rejected, malformed or goes back leaves the state alone.
    method Changes(key: Key, cursor: string, reply: Reply) returns (r: Outcome<seq<Event>>)
      modifies this
      ensures r.Yes? == Accepted(old(Of(key)), key.reference, reply)
      ensures r.Yes? <==>
        && reply.Answer? && reply.reference == key.reference && reply.nextCursor != ""
        && (forall e :: e in reply.events ==> e.id != "")
        && var cursors := old(Of(key)).cursors;
           reply.nextCursor in cursors ==> reply.nextCursor == cursors[|cursors| - 1]
      ensures r.Yes? ==> r.value == Delivered(old(Of(key)), key.reference, reply)
      ensures r.Yes? ==> Of(key).eventIds == old(Of(key)).eventIds + set e | e in reply.events :: e.id
      ensures r.Yes? ==>
        var cursors := old(Of(key)).cursors;
        Of(key).cursors == cursors + (if cursors != [] && cursors[|cursors| - 1] == cursor then [] else [cursor])
                           + (if reply.nextCursor == cursor then [] else [reply.nextCursor])
      ensures r.No? ==> state == old(state)
      ensures Of(key) == After(old(Of(key)), key.reference, cursor, reply)
      ensures forall k :: k != key ==> Of(k) == old(Of(k))
    {
      if !reply.Answer? || reply.reference != key.reference || reply.nextCursor == "" {
        return No;
      }
      if exists i :: 0 <= i < |reply.events| && reply.events[i].id == "" {
        return No;
      }
      var o, next := Of(key), reply.nextCursor;
      var cursors := o.cursors;
      if next in cursors && next != cursors[|cursors| - 1] {
        return No;
      }
      if cursors == [] || cursors[|cursors| - 1] != cursor {
        cursors := cursors + [cursor];
      }
      if next != cursors[|cursors| - 1] {
        cursors := cursors + [next];
      }
      assert cursors == AddCursor(AddCursor(o.cursors, cursor), next);
      IdsAreIds(reply.events);
      var seen, deduplicated := Deduplicate(reply.events, o.eventIds);
      state := state[key := Observed(seen, cursors)];
      return Yes(deduplicated);
    }

    // Waiting: poll from the last recorded cursor, or from a snapshot's when there is none or it expired.
    // The turns are what the network does before the deadline; `polls` is what was asked and answered.
    method Wait(key: Key, first: Outcome<Snapshot>, turns: seq<Turn>, final: Outcome<Snapshot>)
      returns (ending: Ending, polls: seq<Poll>)
      modifies this
      ensures Of(key) == RunPolls(old(Of(key)), key.reference, polls)
      ensures forall k :: k != key ==> Of(k) == old(Of(k))
      ensures old(Of(key)).cursors != [] ==>
        Waited(ending, polls) == WaitFrom(old(Of(key)), key.reference, Last(old(Of(key)).cursors), turns, final)
      ensures old(Of(key)).cursors == [] ==>
        if !Binds(first, key.reference) then ending == Failed && polls == []
        else if first.value.terminal then ending == Terminal && polls == []
        else Waited(ending, polls) == WaitFrom(old(Of(key)), key.reference, first.value.cursor, turns, final)
      ensures old(Of(key)).cursors != [] ==>
        Traced(old(Of(key)), key.reference, Last(old(Of(key)).cursors), turns, final, ending, polls)
      ensures old(Of(key)).cursors == [] && first.Yes? && first.value.reference == key.reference && !first.value.terminal ==>
        Traced(old(Of(key)), key.reference, first.value.cursor, turns, final, ending, polls)
    {
      hide WaitFrom, RunPolls, After, Fresh, Accepted, Chained, Traced;
      polls := [];
      RunNothing(Of(key), key.reference);
      var cursor: string;
      if Of(key).cursors != [] {
        cursor := Last(Of(key).cursors);
      } else {
        if !Binds(first, key.reference) {
          return Failed, polls;
        }
        if first.value.terminal {
          return Terminal, polls;
        }
        cursor := first.value.cursor;
      }
      ghost var whole := WaitFrom(Of(key), key.reference, cursor, turns, final);
      WaitIsTraced(Of(key), key.reference, cursor, turns, final);
      var i := 0;
      assert turns[0..] == turns && forall w: seq<Poll> :: [] + w == w;
      while i < |turns|
        invariant 0 <= i <= |turns|
        invariant whole == Preceded(polls, WaitFrom(Of(key), key.reference, cursor, turns[i..], final))
        invariant Of(key) == RunPolls(old(Of(key)), key.reference, polls)
        invariant forall k :: k != key ==> Of(k) == old(Of(k))
      {
        var turn, poll := turns[i], Poll(cursor, turns[i].reply);
        assert turns[i..][0] == turn && turns[i..][1..] == turns[i + 1..];
        WaitStep(polls, Of(key), key.reference, cursor, turns[i..], final);
        RunPollsSnoc(old(Of(key)), key.reference, polls, poll, cursor);
        NoAnswer(Of(key), key.reference, cursor, turn.reply);
        var delta := Changes(key, cursor, turn.reply);
        polls := polls + [poll];
        i := i + 1;
        if turn.reply.Lost? {
          continue;
        }
        if turn.reply.Rejected? {
          if turn.reply.code != EXPIRED || !Binds(turn.snapshot, key.reference) {
            return Failed, polls;
          }
          if turn.snapshot.value.terminal {
            return Terminal, polls;
          }
          cursor := turn.snapshot.value.cursor;
          continue;
        }
        if delta.No? {
          return Failed, polls;
        }
        cursor := turn.reply.nextCursor;
        if exists j :: 0 <= j < |delta.value| && delta.value[j].terminal {
          return if Binds(final, key.reference) then Terminal else Failed, polls;
        }
      }
      WaitNothing(Of(key), key.reference, cursor, final);
      assert turns[i..] == [] && polls + [] == polls;
      return TimedOut, polls;
    }

    // What another client needs to go on: identifiers in order, and the cursors.
    method Export() returns (r: map<Key, Exported>)
      ensures forall k :: k in r <==> k in state
      ensures forall k :: k in state ==> Imported(r[k]) == state[k] && Ascending(r[k].eventIds)
    {
      r := map[];
      var left := state.Keys;
      while left != {}
        invariant left <= state.Keys && r.Keys == state.Keys - left
        invariant forall k :: k in r ==> Imported(r[k]) == state[k] && Ascending(r[k].eventIds)
        decreases |left|
      {
        var k :| k in left;
        var ids := SortIds(state[k].eventIds);
        r := r[k := Exported(ids, state[k].cursors)];
        left := left - {k};
      }
    }
  }

  lemma IdsAreIds(events: seq<Event>)
    ensures EventIds(events) == set e | e in events :: e.id
  {
    EventIdsAt(events);
    forall id ensures id in EventIds(events) <==> exists e :: e in events && e.id == id {
      if e :| e in events && e.id == id {
        var i :| 0 <= i < |events| && events[i] == e;
      }
    }
  }

  method Deduplicate(events: seq<Event>, known: set<string>) returns (seen: set<string>, deduplicated: seq<Event>)
    ensures seen == known + EventIds(events) && deduplicated == Fresh(events, known)
  {
    seen, deduplicated := known, [];
    var i := 0;
    while i < |events|
      invariant 0 <= i <= |events|
      invariant seen == known + EventIds(events[..i])
      invariant deduplicated == Fresh(events[..i], known)
    {
      var change := events[i];
      assert events[..i + 1] == events[..i] + [change];
      FreshConcat(events[..i], [change], known);
      assert [change][1..] == [];
      if change.id !in seen {
        seen := seen + {change.id};
        deduplicated := deduplicated + [change];
      }
      i := i + 1;
    }
    assert events[..i] == events;
  }

  /******* Waiting *******/

  predicate Binds(snapshot: Outcome<Snapshot>, reference: string) {
    snapshot.Yes? && snapshot.value.reference == reference
  }

  datatype Waiting = Waited(ending: Ending, polls: seq<Poll>)

  function Preceded(polls: seq<Poll>, w: Waiting): Waiting { Waited(w.ending, polls + w.polls) }

  predicate HasTerminal(events: seq<Event>) { exists i :: 0 <= i < |events| && events[i].terminal }

  // One turn of the loop ends the wait or moves it on.
  datatype Move = Stop(ending: Ending) | Go(observed: Observed, cursor: string)

  function Take(o: Observed, reference: string, cursor: string, turn: Turn, final: Outcome<Snapshot>): Move {
    match turn.reply
    case Lost => Go(o, cursor)
    case Rejected(code) =>
      if code != EXPIRED || !Binds(turn.snapshot, reference) then Stop(Failed)
      else if turn.snapshot.value.terminal then Stop(Terminal)
      else Go(o, turn.snapshot.value.cursor)
    case Answer(_, next, _) =>
      if !Accepted(o, reference, turn.reply) then Stop(Failed)
      else if HasTerminal(Delivered(o, reference, turn.reply)) then Stop(if Binds(final, reference) then Terminal else Failed)
      else Go(After(o, reference, cursor, turn.reply), next)
  }

  // How a wait that goes on from `cursor` ends, and what it asks on the way.
  function WaitFrom(o: Observed, reference: string, cursor: string, turns: seq<Turn>, final: Outcome<Snapshot>): Waiting
    decreases |turns|
  {
    if turns == [] then Waited(TimedOut, [])
    else
      var poll := [Poll(cursor, turns[0].reply)];
      match Take(o, reference, cursor, turns[0], final)
      case Stop(ending) => Waited(ending, poll)
      case Go(o', cursor') => Preceded(poll, WaitFrom(o', reference, cursor', turns[1..], final))
  }

  lemma WaitNothing(o: Observed, reference: string, cursor: string, final: Outcome<Snapshot>)
    ensures WaitFrom(o, reference, cursor, [], final) == Waited(TimedOut, [])
  {
  }

  lemma RunNothing(o: Observed, reference: string)
    ensures RunPolls(o, reference, []) == o
  {
  }

  // Only an answer changes the state.
  lemma NoAnswer(o: Observed, reference: string, cursor: string, reply: Reply)
    ensures !reply.Answer? ==> After(o, reference, cursor, reply) == o
  {
  }

  lemma WaitStep(polls: seq<Poll>, o: Observed, reference: string, cursor: string, turns: seq<Turn>, final: Outcome<Snapshot>)
    requires turns != []
    ensures var all, m := polls + [Poll(cursor, turns[0].reply)], Take(o, reference, cursor, turns[0], final);
      Preceded(polls, WaitFrom(o, reference, cursor, turns, final)) ==
      if m.Stop? then Waited(m.ending, all)
      else Preceded(all, WaitFrom(m.observed, reference, m.cursor, turns[1..], final))
  {
    hide Take;
    var p, m := [Poll(cursor, turns[0].reply)], Take(o, reference, cursor, turns[0], final);
    if m.Go? {
      var w := WaitFrom(m.observed, reference, m.cursor, turns[1..], final);
      assert polls + (p + w.polls) == (polls + p) + w.polls;
    }
  }

  lemma HasTerminalConcat(a: seq<Event>, b: seq<Event>)
    ensures HasTerminal(a + b) == (HasTerminal(a) || HasTerminal(b))
  {
    if HasTerminal(a) {
      var i :| 0 <= i < |a| && a[i].terminal;
      assert (a + b)[i].terminal;
    }
    if HasTerminal(b) {
      var i :| 0 <= i < |b| && b[i].terminal;
      assert (a + b)[|a| + i].terminal;
    }
  }

  /******* Runs *******/

  function RunPolls(o: Observed, reference: string, polls: seq<Poll>): Observed
    decreases |polls|
  {
    if polls == [] then o else RunPolls(After(o, reference, polls[0].cursor, polls[0].reply), reference, polls[1..])
  }

  // Everything the polls hand to the caller, in order.
  function AllDelivered(o: Observed, reference: string, polls: seq<Poll>): seq<Event>
    decreases |polls|
  {
    if polls == [] then []
    else Delivered(o, reference, polls[0].reply)
         + AllDelivered(After(o, reference, polls[0].cursor, polls[0].reply), reference, polls[1..])
  }

  // The cursor to go on from.
  function Chain(o: Observed, start: string): string { if o.cursors == [] then start else Last(o.cursors) }

  // Every poll passes the last recorded cursor.
  predicate Chained(o: Observed, reference: string, start: string, polls: seq<Poll>)
    decreases |polls|
  {
    polls == [] ||
    (&& polls[0].cursor == Chain(o, start)
     && Chained(After(o, reference, polls[0].cursor, polls[0].reply), reference, start, polls[1..]))
  }

  lemma {:induction false} RunPollsSnoc(o: Observed, reference: string, polls: seq<Poll>, p: Poll, start: string)
    ensures RunPolls(o, reference, polls + [p]) == After(RunPolls(o, reference, polls), reference, p.cursor, p.reply)
    ensures Chained(o, reference, start, polls + [p]) ==
      (Chained(o, reference, start, polls) && p.cursor == Chain(RunPolls(o, reference, polls), start))
    decreases |polls|
  {
    hide After;
    if polls == [] {
      assert (polls + [p])[1..] == [];
    } else {
      assert (polls + [p])[1..] == polls[1..] + [p];
      RunPollsSnoc(After(o, reference, polls[0].cursor, polls[0].reply), reference, polls[1..], p, start);
    }
  }

  /******* What a wait asks and how it ends *******/

  // The owner no longer knows the cursor, and a snapshot of the resource says where to go on.
  predicate Renews(reference: string, turn: Turn) {
    turn.reply == Rejected("cursor_expired") && turn.snapshot.Yes? && turn.snapshot.value.reference == reference
  }

  // The turn shows the resource terminal: by an event and the closing snapshot, or by the snapshot after an expiry.
  predicate Finishes(o: Observed, reference: string, turn: Turn, final: Outcome<Snapshot>) {
    || (&& Accepted(o, reference, turn.reply) && HasTerminal(Delivered(o, reference, turn.reply))
        && final.Yes? && final.value.reference == reference)
    || (Renews(reference, turn) && turn.snapshot.value.terminal)
  }

  // The turn leaves the wait open.
  predicate Continues(o: Observed, reference: string, turn: Turn) {
    || turn.reply.Lost?
    || (Accepted(o, reference, turn.reply) && !HasTerminal(Delivered(o, reference, turn.reply)))
    || (Renews(reference, turn) && !turn.snapshot.value.terminal)
  }

  // The cursor to ask for after a turn that leaves the wait open: the same one after a lost reply, the snapshot's after
  // an expiry, the answer's next one after an answer.
  ghost predicate Follows(poll: Poll, turn: Turn, next: string) {
    && (turn.reply.Lost? ==> next == poll.cursor)
    && (turn.reply.Rejected? ==> turn.snapshot.Yes? && next == turn.snapshot.value.cursor)
    && (turn.reply.Answer? ==> next == turn.reply.nextCursor)
  }

  // The state before poll k.
  function StateAt(o: Observed, reference: string, polls: seq<Poll>, k: nat): Observed
    requires k <= |polls|
  {
    RunPolls(o, reference, polls[..k])
  }

  // A wait from `cursor` polls turn by turn, as long as the turns leave it open and each time with the following
  // cursor; it is over when a turn shows the resource terminal, when a turn fails, or when the turns are used up.
  ghost predicate Traced(o: Observed, reference: string, cursor: string, turns: seq<Turn>, final: Outcome<Snapshot>,
                         ending: Ending, polls: seq<Poll>) {
    && |polls| <= |turns| && (forall k :: 0 <= k < |polls| ==> polls[k].reply == turns[k].reply)
    && (polls != [] ==> polls[0].cursor == cursor)
    && (forall k :: 0 <= k < |polls| - 1 ==>
          Continues(StateAt(o, reference, polls, k), reference, turns[k]) && Follows(polls[k], turns[k], polls[k + 1].cursor))
    && (ending.TimedOut? <==>
          |polls| == |turns| && forall k :: 0 <= k < |turns| ==> Continues(StateAt(o, reference, polls, k), reference, turns[k]))
    && (ending.Terminal? <==>
          var n := |polls| - 1;
          n >= 0 && Finishes(StateAt(o, reference, polls, n), reference, turns[n], final))
  }

  lemma TakeTraced(o: Observed, reference: string, cursor: string, turn: Turn, final: Outcome<Snapshot>)
    ensures var m := Take(o, reference, cursor, turn, final);
      && (m.Go? <==> Continues(o, reference, turn))
      && (m.Go? ==> m.observed == After(o, reference, cursor, turn.reply) && Follows(Poll(cursor, turn.reply), turn, m.cursor))
      && (m.Stop? ==> !m.ending.TimedOut? && (m.ending.Terminal? <==> Finishes(o, reference, turn, final)))
      && !(Continues(o, reference, turn) && Finishes(o, reference, turn, final))
  {
  }

  lemma StateTail(o: Observed, reference: string, poll: Poll, polls: seq<Poll>, k: nat)
    requires k <= |polls|
    ensures StateAt(o, reference, [poll] + polls, k + 1) ==
      StateAt(After(o, reference, poll.cursor, poll.reply), reference, polls, k)
  {
    hide After;
    assert ([poll] + polls)[..k + 1] == [poll] + polls[..k] && ([poll] + polls[..k])[1..] == polls[..k];
  }

  lemma TracedStep(o: Observed, reference: string, cursor: string, turns: seq<Turn>, final: Outcome<Snapshot>,
                   next: string, ending: Ending, polls: seq<Poll>)
    requires turns != [] && Continues(o, reference, turns[0]) && !Finishes(o, reference, turns[0], final)
    requires Follows(Poll(cursor, turns[0].reply), turns[0], next)
    requires Traced(After(o, reference, cursor, turns[0].reply), reference, next, turns[1..], final, ending, polls)
    requires turns[1..] != [] ==> polls != []
    ensures Traced(o, reference, cursor, turns, final, ending, [Poll(cursor, turns[0].reply)] + polls)
  {
    hide Continues, Finishes, Follows, After, StateAt;
    var poll, o' := Poll(cursor, turns[0].reply), After(o, reference, cursor, turns[0].reply);
    var all := [poll] + polls;
    StateStart(o, reference, all);
    forall k | 0 <= k <= |polls| ensures StateAt(o, reference, all, k + 1) == StateAt(o', reference, polls, k) {
      StateTail(o, reference, poll, polls, k);
    }
    forall k | 0 <= k < |all| - 1
      ensures Continues(StateAt(o, reference, all, k), reference, turns[k]) && Follows(all[k], turns[k], all[k + 1].cursor)
    {
      if k > 0 {
        assert all[k] == polls[k - 1] && all[k + 1] == polls[k] && turns[k] == turns[1..][k - 1];
      }
    }
    forall k | 0 <= k < |all| ensures all[k].reply == turns[k].reply {
      if k > 0 {
        assert all[k] == polls[k - 1] && turns[k] == turns[1..][k - 1];
      }
    }
  }

  lemma StateStart(o: Observed, reference: string, polls: seq<Poll>)
    ensures StateAt(o, reference, polls, 0) == o
  {
  }

  // Every wait, whatever the network does.
  lemma {:induction false} WaitIsTraced(
    o: Observed, reference: string, cursor: string, turns: seq<Turn>, final: Outcome<Snapshot>)
    ensures var w := WaitFrom(o, reference, cursor, turns, final);
      Traced(o, reference, cursor, turns, final, w.ending, w.polls) && (turns != [] ==> w.polls != [])
    decreases |turns|
  {
    if turns != [] {
      hide Take, Continues, Finishes, Follows, After, Traced;
      TakeTraced(o, reference, cursor, turns[0], final);
      var m := Take(o, reference, cursor, turns[0], final);
      if m.Go? {
        WaitIsTraced(m.observed, reference, m.cursor, turns[1..], final);
        var w := WaitFrom(m.observed, reference, m.cursor, turns[1..], final);
        TracedStep(o, reference, cursor, turns, final, m.cursor, w.ending, w.polls);
      } else {
        TracedEnd(o, reference, cursor, turns, final, m.ending);
      }
    }
  }

  lemma TracedEnd(o: Observed, reference: string, cursor: string, turns: seq<Turn>, final: Outcome<Snapshot>, ending: Ending)
    requires turns != [] && !Continues(o, reference, turns[0]) && !ending.TimedOut?
    requires ending.Terminal? <==> Finishes(o, reference, turns[0], final)
    ensures Traced(o, reference, cursor, turns, final, ending, [Poll(cursor, turns[0].reply)])
  {
    hide Continues, Finishes, Follows, After;
    StateStart(o, reference, [Poll(cursor, turns[0].reply)]);
  }

  // A turn that is not rejected moves on to the last recorded cursor.
  lemma TakeFacts(o: Observed, reference: string, cursor: string, turn: Turn, final: Outcome<Snapshot>, start: string)
    ensures var m := Take(o, reference, cursor, turn, final);
      && (m.Go? ==> m.observed == After(o, reference, cursor, turn.reply) && !HasTerminal(Delivered(o, reference, turn.reply)))
      && (m.Go? && !turn.reply.Rejected? && cursor == Chain(o, start) ==> m.cursor == Chain(m.observed, start))
      && (m.Go? && turn.reply.Rejected? ==> m.observed == o && m.cursor == turn.snapshot.value.cursor && turn.snapshot.Yes?)
      && (turn.reply.Rejected? ==> Delivered(o, reference, turn.reply) == [])
      && (m.Stop? ==> (m.ending.Terminal? <==> Finishes(o, reference, turn, final)) && !m.ending.TimedOut?)
  {
  }

  // The snapshots that are asked for after an expiry give the last recorded cursor.
  ghost predicate SnapshotsOnChain(o: Observed, reference: string, start: string, turns: seq<Turn>, polls: seq<Poll>)
    requires |polls| <= |turns|
  {
    forall k :: 0 <= k < |polls| - 1 && turns[k].reply.Rejected? ==>
      turns[k].snapshot.Yes? && turns[k].snapshot.value.cursor == Chain(StateAt(o, reference, polls, k), start)
  }

  lemma OnChainTail(o: Observed, reference: string, start: string, turns: seq<Turn>, poll: Poll, polls: seq<Poll>)
    requires turns != [] && |polls| <= |turns| - 1
    ensures SnapshotsOnChain(o, reference, start, turns, [poll] + polls) <==>
      && (polls != [] && turns[0].reply.Rejected? ==> turns[0].snapshot.Yes? && turns[0].snapshot.value.cursor == Chain(o, start))
      && SnapshotsOnChain(After(o, reference, poll.cursor, poll.reply), reference, start, turns[1..], polls)
  {
    hide After, StateAt, Chain;
    var all, o' := [poll] + polls, After(o, reference, poll.cursor, poll.reply);
    StateStart(o, reference, all);
    forall k | 0 <= k <= |polls| ensures StateAt(o, reference, all, k + 1) == StateAt(o', reference, polls, k) {
      StateTail(o, reference, poll, polls, k);
    }
    if SnapshotsOnChain(o, reference, start, turns, all) {
      forall k | 0 <= k < |polls| - 1 && turns[1..][k].reply.Rejected?
        ensures turns[1..][k].snapshot.Yes? && turns[1..][k].snapshot.value.cursor == Chain(StateAt(o', reference, polls, k), start)
      {
        assert turns[1..][k] == turns[k + 1];
      }
    }
    if SnapshotsOnChain(o', reference, start, turns[1..], polls) {
      forall k | 0 < k < |all| - 1 && turns[k].reply.Rejected?
        ensures turns[k].snapshot.Yes? && turns[k].snapshot.value.cursor == Chain(StateAt(o, reference, all, k), start)
      {
        assert turns[k] == turns[1..][k - 1];
      }
    }
  }

  // A wait follows the chain of recorded cursors exactly when every snapshot after an expiry, but for one that ends
  // the wait, is on the chain: in particular when no reply is rejected.
  lemma {:induction false} WaitFollowsTheChain(
    o: Observed, reference: string, cursor: string, turns: seq<Turn>, final: Outcome<Snapshot>, start: string)
    requires cursor == Chain(o, start)
    ensures var w := WaitFrom(o, reference, cursor, turns, final);
      |w.polls| <= |turns| && (Chained(o, reference, start, w.polls) <==> SnapshotsOnChain(o, reference, start, turns, w.polls))
    decreases |turns|
  {
    if turns != [] {
      hide Take, Accepted, After, Delivered, HasTerminal, SnapshotsOnChain, Chain;
      TakeFacts(o, reference, cursor, turns[0], final, start);
      var w, m := WaitFrom(o, reference, cursor, turns, final), Take(o, reference, cursor, turns[0], final);
      var poll := Poll(cursor, turns[0].reply);
      if m.Go? {
        var w' := WaitFrom(m.observed, reference, m.cursor, turns[1..], final);
        WaitIsTraced(m.observed, reference, m.cursor, turns[1..], final);
        assert w.polls == [poll] + w'.polls && w.polls[1..] == w'.polls;
        OnChainTail(o, reference, start, turns, poll, w'.polls);
        if m.cursor == Chain(m.observed, start) {
          WaitFollowsTheChain(m.observed, reference, m.cursor, turns[1..], final, start);
        } else if turns[1..] == [] {
          NothingOnChain(m.observed, reference, start, turns[1..]);
        }
      } else {
        assert w.polls == [poll] + [] && w.polls[1..] == [];
        OnChainTail(o, reference, start, turns, poll, []);
        NothingOnChain(After(o, reference, cursor, turns[0].reply), reference, start, turns[1..]);
      }
    } else {
      NothingOnChain(o, reference, start, turns);
    }
  }

  lemma NothingOnChain(o: Observed, reference: string, start: string, turns: seq<Turn>)
    ensures SnapshotsOnChain(o, reference, start, turns, [])
  {
  }

  // A wait reports a terminal resource exactly when it was given a terminal event and the closing snapshot is the
  // resource's, or when the snapshot after an expiry was terminal; when it times out it was given no terminal event.
  lemma {:induction false} WaitDelivers(o: Observed, reference: string, cursor: string, turns: seq<Turn>, final: Outcome<Snapshot>)
    ensures var w := WaitFrom(o, reference, cursor, turns, final);
      && |w.polls| <= |turns|
      && (w.ending.Terminal? <==>
            || (HasTerminal(AllDelivered(o, reference, w.polls)) && final.Yes? && final.value.reference == reference)
            || (var n := |w.polls| - 1; n >= 0 && Renews(reference, turns[n]) && turns[n].snapshot.value.terminal))
      && (w.ending.TimedOut? ==> |w.polls| == |turns| && !HasTerminal(AllDelivered(o, reference, w.polls)))
    decreases |turns|
  {
    if turns != [] {
      hide Take, Accepted, After, Delivered, HasTerminal, Renews;
      TakeFacts(o, reference, cursor, turns[0], final, cursor);
      var w, m, d := WaitFrom(o, reference, cursor, turns, final), Take(o, reference, cursor, turns[0], final),
                     Delivered(o, reference, turns[0].reply);
      TakeTraced(o, reference, cursor, turns[0], final);
      if m.Go? {
        WaitDelivers(m.observed, reference, m.cursor, turns[1..], final);
        var w' := WaitFrom(m.observed, reference, m.cursor, turns[1..], final);
        assert w.polls[1..] == w'.polls;
        HasTerminalConcat(d, AllDelivered(m.observed, reference, w'.polls));
        assert w'.polls != [] ==> turns[1..][|w'.polls| - 1] == turns[|w.polls| - 1];
      } else {
        assert w.polls[1..] == [] && d + [] == d;
      }
      DeliveredOnlyIfAccepted(o, reference, turns[0].reply);
    } else {
      assert !HasTerminal([]);
    }
  }

  lemma DeliveredOnlyIfAccepted(o: Observed, reference: string, reply: Reply)
    ensures HasTerminal(Delivered(o, reference, reply)) ==> Accepted(o, reference, reply)
  {
  }

  /******* Export and import *******/

  datatype Exported = Exported(eventIds: seq<string>, cursors: seq<string>)

  function Imported(e: Exported): Observed { Observed((set id | id in e.eventIds), e.cursors) }

  predicate Before(a: string, b: string) {
    b != [] && (a == [] || a[0] < b[0] || (a[0] == b[0] && Before(a[1..], b[1..])))
  }

  lemma FirstDiffers(a: string, b: string, k: nat)
    requires k < |a| && k < |b| && a[0] != b[0]
    ensures a[..k] == b[..k] ==> k == 0
  {
    if k > 0 {
      assert a[..k][0] == a[0] && b[..k][0] == b[0];
    }
  }

  // The order of strings: a proper prefix comes first, else the first difference decides.
  lemma {:induction false} BeforeExact(a: string, b: string)
    ensures Before(a, b) <==> a < b || exists k :: 0 <= k < |a| && k < |b| && a[..k] == b[..k] && a[k] < b[k]
  {
    if a == [] || b == [] || a[0] != b[0] {
      if Before(a, b) && a != [] {
        assert a[..0] == b[..0];
      }
      forall k | 0 <= k < |a| && k < |b| ensures a[..k] == b[..k] ==> k == 0 {
        FirstDiffers(a, b, k);
      }
    } else {
      BeforeExact(a[1..], b[1..]);
      assert a == [a[0]] + a[1..] && b == [b[0]] + b[1..];
      assert a < b <==> a[1..] < b[1..] by {
        assert forall i :: 0 < i < |a| ==> a[i] == a[1..][i - 1];
        assert forall i :: 0 < i < |b| ==> b[i] == b[1..][i - 1];
      }
      if k :| 0 <= k < |a[1..]| && k < |b[1..]| && a[1..][..k] == b[1..][..k] && a[1..][k] < b[1..][k] {
        assert a[..k + 1] == [a[0]] + a[1..][..k] && b[..k + 1] == [b[0]] + b[1..][..k];
        assert a[k + 1] < b[k + 1];
      }
      if k :| 0 <= k < |a| && k < |b| && a[..k] == b[..k] && a[k] < b[k] {
        assert a[1..][..k - 1] == a[..k][1..] && b[1..][..k - 1] == b[..k][1..];
        assert a[1..][k - 1] < b[1..][k - 1];
      }
    }
  }

  predicate Ascending(s: seq<string>) { forall i :: 0 <= i < |s| - 1 ==> Before(s[i], s[i + 1]) }

  lemma {:induction false} BeforeTotal(a: string, b: string)
    ensures a == b || Before(a, b) || Before(b, a)
  {
    if a != [] && b != [] {
      BeforeTotal(a[1..], b[1..]);
      assert a == [a[0]] + a[1..] && b == [b[0]] + b[1..];
    }
  }

  method SortIds(ids: set<string>) returns (s: seq<string>)
    ensures Ascending(s) && (set id | id in s) == ids
  {
    hide Before;
    s := [];
    var left := ids;
    while left != {}
      invariant left <= ids && Ascending(s) && (set id | id in s) == ids - left
      decreases |left|
    {
      var id :| id in left;
      assert id !in s by { assert id !in (set x | x in s); }
      s := InsertId(s, id);
      left := left - {id};
    }
  }

  function InsertId(s: seq<string>, id: string): (r: seq<string>)
    requires Ascending(s) && id !in s
    ensures Ascending(r) && (set x | x in r) == (set x | x in s) + {id}
    ensures r[0] == id || (s != [] && r[0] == s[0])
  {
    if s == [] || Before(id, s[0]) then [id] + s
    else
      BeforeTotal(id, s[0]);
      [s[0]] + InsertId(s[1..], id)
  }
}
